/** The single-node storage engine as it runs (api/queel/engine.go, api/queel/compaction.go). */
module StorageEngine {
  import opened Wrappers
  import opened Bytes
  import opened Sorting
  import opened SkipList
  import opened SortedRuns
  import opened EngineModel
  import opened EngineRuns
  import WAL = WriteAheadLog

  /** `strings.HasPrefix`. */
  predicate HasPrefix(k: Key, prefix: Key)
  {
    prefix <= k
  }

  function Restrict<V>(m: map<Key, V>, prefix: Key): map<Key, V>
  {
    map k | k in m && HasPrefix(k, prefix) :: m[k]
  }

  function Numbers(sstables: seq<SSTable>): (runs: seq<nat>)
    ensures |runs| == |sstables|
    ensures forall i :: 0 <= i < |runs| ==> runs[i] == sstables[i].number
  {
    seq(|sstables|, i requires 0 <= i < |sstables| => sstables[i].number)
  }

  /** Every loaded table is a readable file with the index its rows call for. */
  ghost predicate Loaded(files: map<nat, seq<Byte>>, sstables: seq<SSTable>)
  {
    forall i :: 0 <= i < |sstables| ==> LoadedTable(files, sstables[i])
  }

  ghost predicate LoadedTable(files: map<nat, seq<Byte>>, sst: SSTable)
  {
    && sst.number in files
    && Parse(files[sst.number]).Ok?
    && sst.index == IndexOf(Parse(files[sst.number]).value, 0)
  }

  lemma {:induction false} ToMapAppend<V>(m: map<Key, V>, s: seq<KV<V>>, x: KV<V>)
    ensures m + ToMap(s + [x]) == (m + ToMap(s))[x.key := x.value]
  {
    assert (s + [x])[..|s|] == s;
  }

  /** `for _, entry := range entries { latest[entry.key] = entry }` */
  method Overlay(latest: map<Key, Cell>, entries: seq<Row>) returns (latest': map<Key, Cell>)
    ensures latest' == latest + ToMap(entries)
  {
    latest' := latest;
    for i := 0 to |entries|
      invariant latest' == latest + ToMap(entries[..i])
    {
      ToMapAppend(latest, entries[..i], entries[i]);
      assert entries[..i + 1] == entries[..i] + [entries[i]];
      latest' := latest'[entries[i].key := entries[i].value];
    }
    assert entries[..|entries|] == entries;
  }

  lemma {:induction false} NewKey<V>(s: seq<KV<V>>, x: KV<V>)
    requires DistinctKeys(s) && x.key !in ToMap(s)
    ensures DistinctKeys(s + [x]) && ToMap(s + [x]) == ToMap(s)[x.key := x.value]
  {
    ToMapAppend(map[], s, x);
    assert map[] + ToMap(s + [x]) == ToMap(s + [x]) && map[] + ToMap(s) == ToMap(s);
    forall i | 0 <= i < |s|
      ensures s[i].key != x.key
    {
      DistinctBinding(s, i);
    }
  }

  /** The newest write per key over the given tables (newest first), read oldest first. */
  method Latest(files: map<nat, seq<Byte>>, sstables: seq<SSTable>) returns (r: Result<map<Key, Cell>, ReadError>)
    requires Loaded(files, sstables)
    ensures r == Ok(Stack(files, Numbers(sstables)))
  {
    var latest: map<Key, Cell> := map[];
    var i := |sstables|;
    while i > 0
      invariant 0 <= i <= |sstables|
      invariant latest == Stack(files, Numbers(sstables)[i..])
    {
      i := i - 1;
      assert LoadedTable(files, sstables[i]);
      var file := files[sstables[i].number];
      var entries := Entries(file);
      if entries.Err? {
        return Err(UnexpectedEOF);
      }
      latest := Overlay(latest, entries.value);
      StackFrom(files, Numbers(sstables), i);
    }
    assert Numbers(sstables)[0..] == Numbers(sstables);
    return Ok(latest);
  }

  lemma FileMap(file: seq<Byte>)
    requires IsRun(file)
    ensures RunMap(file) == ToMap(Parse(file).value)
  {
  }

  lemma EmptyStack(files: map<nat, seq<Byte>>)
    ensures Stack(files, []) == map[]
  {
  }

  lemma StackFrom(files: map<nat, seq<Byte>>, runs: seq<nat>, i: nat)
    requires i < |runs| && runs[i] in files
    ensures Stack(files, runs[i..]) == Stack(files, runs[i + 1..]) + RunMap(files[runs[i]])
  {
    assert runs[i..][1..] == runs[i + 1..];
  }

  /** Looks a key up in the given tables, newest first. */
  method SearchRuns(files: map<nat, seq<Byte>>, sstables: seq<SSTable>, key: Key)
    returns (r: Result<Lookup, ReadError>)
    requires Loaded(files, sstables) && forall n :: n in files ==> IsRun(files[n])
    ensures r == Ok(LookUp(Stack(files, Numbers(sstables)), key))
  {
    ghost var runs := Numbers(sstables);
    assert runs[0..] == runs;
    hide Stack;
    hide RunMap;
    hide ToMap;
    hide IndexOf;
    hide Parse;
    var i := 0;
    while i < |sstables|
      invariant 0 <= i <= |sstables|
      invariant LookUp(Stack(files, runs), key) == LookUp(Stack(files, runs[i..]), key)
    {
      assert LoadedTable(files, sstables[i]);
      var file := files[sstables[i].number];
      StackFrom(files, runs, i);
      FileMap(file);
      var found := SortedRuns.Get(file, sstables[i].index, key, Parse(file).value);
      if found.Err? || found.value.Present? {
        return found;
      }
      i := i + 1;
    }
    assert runs[i..] == [];
    EmptyStack(files);
    return Ok(Absent);
  }

  /** What a merge holds when the keys in `rest` have still to be looked at. */
  function MergedSoFar(latest: map<Key, Cell>, rest: set<Key>): map<Key, Cell>
  {
    map k | k in latest && k !in rest && !latest[k].tombstone :: latest[k]
  }

  lemma NoneMerged(latest: map<Key, Cell>)
    ensures DistinctKeys<Cell>([]) && ToMap<Cell>([]) == MergedSoFar(latest, latest.Keys)
  {
  }

  lemma MergedOneMore(latest: map<Key, Cell>, rest: set<Key>, k: Key)
    requires k in latest && k in rest
    ensures k !in MergedSoFar(latest, rest)
    ensures MergedSoFar(latest, rest - {k}) ==
      if latest[k].tombstone then MergedSoFar(latest, rest) else MergedSoFar(latest, rest)[k := latest[k]]
  {
  }

  /** Merges tables into one entry per key, the newest winning, and drops the tombstones. */
  method MergeSSTables(files: map<nat, seq<Byte>>, sstables: seq<SSTable>)
    returns (r: Result<seq<Row>, ReadError>)
    requires Loaded(files, sstables)
    ensures r.Ok? && DistinctKeys(r.value) && ToMap(r.value) == Merged(Stack(files, Numbers(sstables)))
  {
    var latest := Latest(files, sstables);
    if latest.Err? {
      return Err(UnexpectedEOF);
    }
    var merged: seq<Row>, rest := [], latest.value.Keys;
    var bindings := latest.value;
    hide DistinctKeys;
    hide Numbers;
    hide Stack;
    hide ToMap;
    NoneMerged(bindings);
    while rest != {}
      invariant rest <= bindings.Keys
      invariant DistinctKeys(merged) && ToMap(merged) == MergedSoFar(bindings, rest)
      decreases rest
    {
      var k :| k in rest;
      MergedOneMore(bindings, rest, k);
      hide MergedSoFar;
      rest := rest - {k};
      if bindings[k].tombstone {
        continue;
      }
      NewKey(merged, KV(k, bindings[k]));
      merged := merged + [KV(k, bindings[k])];
    }
    assert MergedSoFar(bindings, {}) == Merged(bindings);
    return Ok(merged);
  }

  /** The visible entries of a merge under a prefix, in whatever order the merge is walked. */
  method Select(latest: map<Key, Cell>, prefix: Key) returns (found: seq<KV<seq<Byte>>>)
    ensures DistinctKeys(found) && ToMap(found) == Restrict(Visible(latest), prefix)
  {
    var rest := latest.Keys;
    found := [];
    while rest != {}
      invariant rest <= latest.Keys
      invariant DistinctKeys(found)
      invariant ToMap(found) ==
        map k | k in latest && k !in rest && !latest[k].tombstone && HasPrefix(k, prefix) :: latest[k].value
      decreases rest
    {
      var k :| k in rest;
      rest := rest - {k};
      if latest[k].tombstone || !HasPrefix(k, prefix) {
        continue;
      }
      NewKey(found, KV(k, latest[k].value));
      found := found + [KV(k, latest[k].value)];
    }
  }

  lemma AscendingIsDistinct<V>(s: seq<KV<V>>)
    requires Ascending(s)
    ensures DistinctKeys(s)
  {
    forall i, j | 0 <= i < j < |s|
      ensures s[i].key != s[j].key
    {
      LessTrichotomy(s[i].key, s[j].key);
    }
  }

  lemma EntriesDecideFull(entries: seq<Row>, s: State, limit: int)
    requires Lists(entries, s.table)
    ensures entries == Listing(s.table)
    ensures Full(s, limit) <==> TotalSize(entries) >= limit
  {
    ListingUnique(entries, Listing(s.table), s.table);
  }

  lemma NumbersMore(sst: SSTable, sstables: seq<SSTable>)
    ensures Numbers([sst] + sstables) == [sst.number] + Numbers(sstables)
  {
  }

  /** What a key shows: its cell in the table if it has one, else in the runs. */
  function Shown(table: map<Key, Cell>, below: map<Key, Cell>, key: Key): Option<seq<Byte>>
  {
    var m := if key in table then table else below;
    if key in m && !m[key].tombstone then Some(m[key].value) else None
  }

  lemma ViewShows(s: State, key: Key)
    ensures Shown(s.table, Stack(s.files, s.runs), key) == if key in View(s) then Some(View(s)[key]) else None
  {
  }

  lemma ListingDistinct(m: map<Key, Cell>)
    ensures DistinctKeys(Listing(m))
  {
    AscendingIsDistinct(Listing(m));
  }

  lemma ReadableTable(m: map<Key, Cell>)
    requires AllEncodable(m)
    ensures Parse(FileOf(Listing(m))) == Ok(Listing(m))
  {
    var rows := Listing(m);
    forall i | 0 <= i < |rows|
      ensures Encodable(rows[i])
    {
      BindingAt(rows, i);
    }
    ParseFile(rows);
  }

  lemma LoadedMore(files: map<nat, seq<Byte>>, sstables: seq<SSTable>, next: nat, rows: seq<Row>)
    requires Loaded(files, sstables) && next !in files && Parse(FileOf(rows)) == Ok(rows)
    ensures Loaded(files[next := FileOf(rows)], [SSTable(next, IndexOf(rows, 0))] + sstables)
  {
    var files', sstables' := files[next := FileOf(rows)], [SSTable(next, IndexOf(rows, 0))] + sstables;
    forall i | 0 <= i < |sstables'|
      ensures LoadedTable(files', sstables'[i])
    {
      if i > 0 {
        assert LoadedTable(files, sstables[i - 1]);
      }
    }
  }

  /** A new table written for the rows of the table in memory; loaded like the others unless it replaced a file. */
  method NewRun(files: map<nat, seq<Byte>>, sstables: seq<SSTable>, next: nat, entries: seq<Row>,
      ghost table: map<Key, Cell>)
    returns (sst: SSTable, file: seq<Byte>)
    requires entries == Listing(table)
    ensures file == FileOf(Listing(table))
    ensures Loaded(files, sstables) && next !in files && AllEncodable(table) ==>
      Loaded(files[next := file], [sst] + sstables)
    ensures Numbers([sst] + sstables) == [next] + Numbers(sstables)
  {
    hide Loaded;
    hide AllEncodable;
    ListingDistinct(table);
    sst, file := WriteSSTable(next, entries);
    if Loaded(files, sstables) && next !in files && AllEncodable(table) {
      ReadableTable(table);
      LoadedMore(files, sstables, next, entries);
    }
    NumbersMore(sst, sstables);
  }

  datatype OpenError = CorruptRun | CorruptLog

  /** The numbers of the run files, ascending. */
  method ExistingSSTables(files: map<nat, seq<Byte>>) returns (seqs: seq<nat>)
    ensures (set n | n in seqs) == files.Keys && |seqs| == |files|
    ensures forall i, j :: 0 <= i < j < |seqs| ==> seqs[i] < seqs[j]
  {
    var found: seq<nat>, rest := [], files.Keys;
    while rest != {}
      invariant rest <= files.Keys
      invariant forall n :: n in found <==> n in files.Keys - rest
      invariant forall i, j :: 0 <= i < j < |found| ==> found[i] != found[j]
      invariant |found| + |rest| == |files.Keys|
      decreases rest
    {
      var n :| n in rest;
      assert n !in found;
      rest := rest - {n};
      found := found + [n];
    }
    seqs := SortSlice(found, (a: nat, b: nat) => a < b);
    assert |multiset(seqs)| == |seqs| && |multiset(found)| == |found|;
    forall n
      ensures n in seqs <==> n in files.Keys
    {
      assert n in seqs <==> n in multiset(seqs);
      assert n in found <==> n in multiset(found);
    }
    forall i, j | 0 <= i < j < |seqs|
      ensures seqs[i] < seqs[j]
    {
      if seqs[i] == seqs[j] {
        TwiceInSeq(seqs, i, j);
        OnceInSeq(found, seqs[i]);
      }
    }
  }

  /** Opens every run, oldest first, keeping the newest at the front. */
  method LoadTables(files: map<nat, seq<Byte>>) returns (r: Result<seq<SSTable>, OpenError>)
    ensures r.Ok? <==> forall n :: n in files ==> Parse(files[n]).Ok?
    ensures r.Ok? ==> Loaded(files, r.value) && Numbers(r.value) == Ordered(files.Keys)
    ensures r.Ok? ==> |r.value| == |files|
  {
    var seqs := ExistingSSTables(files);
    var sstables: seq<SSTable> := [];
    for i := 0 to |seqs|
      invariant LoadedFrom(files, seqs, i, sstables)
    {
      assert seqs[i] in files.Keys;
      hide IndexOf;
      hide Parse;
      hide LoadedFrom;
      var sst := OpenSSTable(seqs[i], files[seqs[i]]);
      if sst.Err? {
        return Err(CorruptRun);
      }
      OneMoreLoaded(files, seqs, i, sstables, sst.value);
      sstables := [sst.value] + sstables;
    }
    NumbersOrdered(files, seqs, sstables);
    AllParsed(files, seqs, sstables);
    return Ok(sstables);
  }

  /** The first `i` numbers' tables are loaded, each put in front of those before it. */
  ghost predicate LoadedFrom(files: map<nat, seq<Byte>>, seqs: seq<nat>, i: nat, sstables: seq<SSTable>)
  {
    && i <= |seqs| && |sstables| == i && Loaded(files, sstables)
    && forall j :: 0 <= j < i ==> sstables[j].number == seqs[i - 1 - j]
  }

  lemma AllParsed(files: map<nat, seq<Byte>>, seqs: seq<nat>, sstables: seq<SSTable>)
    requires LoadedFrom(files, seqs, |seqs|, sstables) && (set n | n in seqs) == files.Keys
    ensures forall n :: n in files ==> Parse(files[n]).Ok?
  {
    hide IndexOf;
    forall n | n in files.Keys
      ensures Parse(files[n]).Ok?
    {
      var j :| 0 <= j < |seqs| && seqs[j] == n;
      assert LoadedTable(files, sstables[|seqs| - 1 - j]);
    }
  }

  lemma OneMoreLoaded(files: map<nat, seq<Byte>>, seqs: seq<nat>, i: nat, sstables: seq<SSTable>, sst: SSTable)
    requires i < |seqs| && LoadedFrom(files, seqs, i, sstables) && LoadedTable(files, sst) && sst.number == seqs[i]
    ensures LoadedFrom(files, seqs, i + 1, [sst] + sstables)
  {
  }

  /** Tables loaded from the lowest number up, each put in front, are in descending order of all the numbers. */
  lemma NumbersOrdered(files: map<nat, seq<Byte>>, seqs: seq<nat>, sstables: seq<SSTable>)
    requires (set n | n in seqs) == files.Keys && |sstables| == |seqs|
    requires forall i, j :: 0 <= i < j < |seqs| ==> seqs[i] < seqs[j]
    requires forall j :: 0 <= j < |seqs| ==> sstables[j].number == seqs[|seqs| - 1 - j]
    ensures Numbers(sstables) == Ordered(files.Keys)
  {
    var runs := Numbers(sstables);
    forall n | n in files.Keys
      ensures n in runs
    {
      var j :| 0 <= j < |seqs| && seqs[j] == n;
      assert runs[|seqs| - 1 - j] == n;
    }
    assert Orders(runs, files.Keys);
    OrderUnique(runs, Ordered(files.Keys), files.Keys);
  }

  /** The run a compaction writes, and the directory once the files of the old runs are removed by their numbers. */
  method MergedRun(files: map<nat, seq<Byte>>, sstables: seq<SSTable>, next: nat)
    returns (sst: SSTable, file: seq<Byte>, rest: map<nat, seq<Byte>>)
    requires Loaded(files, sstables) && forall n :: n in files ==> IsRun(files[n])
    ensures file == FileOf(Listing(Merged(Stack(files, Numbers(sstables)))))
    ensures rest == files[next := file] - (set n | n in Numbers(sstables))
    ensures sst.number == next && Numbers([sst]) == [next]
    ensures next !in files && files.Keys == (set n | n in Numbers(sstables)) ==> Loaded(rest, [sst])
  {
    hide Loaded;
    hide IndexOf;
    hide FileOf;
    hide Parse;
    hide Merged;
    hide Stack;
    hide Lists;
    hide ToMap;
    hide DistinctKeys;
    var merged := MergeSSTables(files, sstables);
    ghost var m := Merged(Stack(files, Numbers(sstables)));
    sst, file := WriteSSTable(next, merged.value);
    MergedReadable(files, Numbers(sstables));
    rest := RemoveFiles(files[next := file], sstables);
    if next !in files && files.Keys == set n | n in Numbers(sstables) {
      OnlyTheNew(files, Numbers(sstables), next, file);
      LoadedOne(next, Listing(m));
    }
  }

  lemma LoadedOne(n: nat, rows: seq<Row>)
    requires Parse(FileOf(rows)) == Ok(rows)
    ensures Loaded(map[n := FileOf(rows)], [SSTable(n, IndexOf(rows, 0))])
  {
    assert LoadedTable(map[n := FileOf(rows)], SSTable(n, IndexOf(rows, 0)));
  }

  method RemoveFiles(files: map<nat, seq<Byte>>, sstables: seq<SSTable>) returns (rest: map<nat, seq<Byte>>)
    ensures rest == files - (set n | n in Numbers(sstables))
  {
    rest := files;
    for i := 0 to |sstables|
      invariant rest == files - (set n | n in Numbers(sstables)[..i])
    {
      assert Numbers(sstables)[..i + 1] == Numbers(sstables)[..i] + [sstables[i].number];
      rest := rest - {sstables[i].number};
    }
    assert Numbers(sstables)[..|sstables|] == Numbers(sstables);
  }

  lemma MergedReadable(files: map<nat, seq<Byte>>, runs: seq<nat>)
    requires forall n :: n in files ==> IsRun(files[n])
    ensures var rows := Listing(Merged(Stack(files, runs))); Parse(FileOf(rows)) == Ok(rows)
  {
    StackEncodable(files, runs);
    var rows := Listing(Merged(Stack(files, runs)));
    forall i | 0 <= i < |rows|
      ensures Encodable(rows[i])
    {
      BindingAt(rows, i);
    }
    ParseFile(rows);
  }

  /** When a write leaves the engine sound: its lengths can be recorded, and no flush hits a file in use. */
  ghost predicate Kept(s: State, op: Row, fault: Fault, limit: int)
  {
    Encodable(op) && (WritesRun(s, Write(op, fault), limit) ==> s.next !in s.files)
  }

  /** The write takes what is held in memory to the limit. */
  ghost predicate FlushDue(s: State, op: Row, limit: int)
  {
    TotalSize(Listing(s.table[op.key := op.value])) >= limit
  }

  /** The call returns without an error: nothing fails, or what would have failed is not due. */
  ghost predicate Returns(s: State, op: Row, fault: Fault, limit: int)
  {
    fault == Clean || (fault != AppendFailed && !FlushDue(s, op, limit))
  }

  lemma FlushDueIs(s: State, op: Row, limit: int)
    ensures FlushDue(s, op, limit) <==> Full(Remember(Append(s, op), op), limit)
  {
  }

  lemma PlainlyWritten(m: map<Key, seq<Byte>>, key: Key, cell: Cell, fault: Fault)
    ensures PlainStep(m, Write(KV(key, cell), fault)) ==
      if fault == AppendFailed then m else if cell.tombstone then m - {key} else m[key := cell.value]
  {
  }

  lemma AppendFailedIs(s: State, op: Row, limit: int)
    ensures AfterWrite(s, op, AppendFailed, limit) == s
  {
  }

  /** The size kept by the memtable is that of what it holds. */
  lemma FullBySize(memtable: Memtable, s: State, limit: int)
    requires memtable.Valid() && s.table == memtable.Contents()
    ensures Full(s, limit) <==> memtable.size >= limit
  {
    hide Listing;
    hide TotalSize;
    ListingUnique(memtable.rows, Listing(s.table), s.table);
  }

  lemma EncodableStays(s: State, op: Row)
    requires Sound(s) && Encodable(op)
    ensures AllEncodable(Remember(Append(s, op), op).table)
  {
  }

  class Engine {
    /** The data directory: run files by number, and the log. */
    var files: map<nat, seq<Byte>>
    var wal: seq<Byte>

    var memtable: Memtable
    var sstables: seq<SSTable>
    var nextSSTableSeq: nat
    const memtableSizeLimit: int

    ghost function Abs(): State
      reads this, memtable
    {
      State(files, wal, memtable.Contents(), Numbers(sstables), nextSSTableSeq)
    }

    ghost predicate Ready()
      reads this, memtable, memtable.place.Keys
    {
      memtable.Valid() && Loaded(files, sstables)
    }

    ghost predicate Valid()
      reads this, memtable, memtable.place.Keys
    {
      Ready() && Sound(Abs())
    }

    constructor (files: map<nat, seq<Byte>>, wal: seq<Byte>, memtable: Memtable, sstables: seq<SSTable>,
                 next: nat, limit: int)
      ensures this.files == files && this.wal == wal && this.memtable == memtable
      ensures this.sstables == sstables && nextSSTableSeq == next && memtableSizeLimit == limit
    {
      this.files := files;
      this.wal := wal;
      this.memtable := memtable;
      this.sstables := sstables;
      nextSSTableSeq := next;
      memtableSizeLimit := limit;
    }

    /** Checks the memtable, then each run from newest to oldest; a tombstone means "not found". */
    method Get(key: Key) returns (r: Result<Option<seq<Byte>>, ReadError>)
      requires Valid()
      ensures r == Ok(if key in View(Abs()) then Some(View(Abs())[key]) else None)
    {
      hide Memtable.Valid;
      hide View;
      hide ToMap;
      ViewShows(Abs(), key);
      var value, tombstone, found := memtable.Get(key);
      if found {
        return Ok(if tombstone then None else Some(value));
      }
      var below := SearchRuns(files, sstables, key);
      if below.Err? {
        return Err(UnexpectedEOF);
      }
      match below.value
      case Present(cell) => return Ok(if cell.tombstone then None else Some(cell.value));
      case Absent => return Ok(None);
    }

    /** Every visible binding under a prefix, in ascending key order. */
    method Scan(prefix: Key) returns (r: Result<seq<KV<seq<Byte>>>, ReadError>)
      requires Valid()
      ensures r.Ok? && Lists(r.value, Restrict(View(Abs()), prefix))
      ensures r.Ok? && Lists(r.value, map k | k in View(Abs()) && prefix <= k :: View(Abs())[k])
    {
      assert Restrict(View(Abs()), prefix) == map k | k in View(Abs()) && prefix <= k :: View(Abs())[k];
      var below := Latest(files, sstables);
      if below.Err? {
        return Err(UnexpectedEOF);
      }
      var entries := memtable.Entries();
      var latest := Overlay(below.value, entries);
      assert latest == Stack(files, Numbers(sstables)) + memtable.Contents();
      var found := Select(latest, prefix);
      KeyOrderIsWeak<seq<Byte>>();
      var sorted := SortSlice(found, (a: KV<seq<Byte>>, b: KV<seq<Byte>>) => Less(a.key, b.key));
      SortedLists(found, sorted);
      return Ok(sorted);
    }

    /**
     * Durably writes a key: log first, then the memtable. The engine goes on sound, and what it holds recoverable,
     * as long as the record format can hold the lengths and a flush that falls due does not hit a file in use.
     */
    method Put(key: Key, value: seq<Byte>, fault: Fault) returns (ok: bool)
      requires Valid() && fault != CrashAfterAppend && fault != CrashAfterRun
      modifies this, memtable, memtable.place.Keys
      ensures Abs() == AfterWrite(old(Abs()), KV(key, Cell(value, false)), fault, memtableSizeLimit)
      ensures Kept(old(Abs()), KV(key, Cell(value, false)), fault, memtableSizeLimit) ==>
        Valid() && View(Abs()) == if fault == AppendFailed then View(old(Abs())) else View(old(Abs()))[key := value]
      ensures fault == AppendFailed ==> Abs() == old(Abs())
      ensures ok <==> Returns(old(Abs()), KV(key, Cell(value, false)), fault, memtableSizeLimit)
    {
      PlainlyWritten(View(Abs()), key, Cell(value, false), fault);
      hide View;
      hide Kept;
      hide AfterWrite;
      hide PlainStep;
      AppendFailedIs(Abs(), KV(key, Cell(value, false)), memtableSizeLimit);
      ok := WriteOne(KV(key, Cell(value, false)), fault);
    }

    /** Records a tombstone, so that older runs stop showing the key; under the same conditions. */
    method Delete(key: Key, fault: Fault) returns (ok: bool)
      requires Valid() && fault != CrashAfterAppend && fault != CrashAfterRun
      modifies this, memtable, memtable.place.Keys
      ensures Abs() == AfterWrite(old(Abs()), KV(key, Cell([], true)), fault, memtableSizeLimit)
      ensures Kept(old(Abs()), KV(key, Cell([], true)), fault, memtableSizeLimit) ==>
        Valid() && View(Abs()) == if fault == AppendFailed then View(old(Abs())) else View(old(Abs())) - {key}
      ensures fault == AppendFailed ==> Abs() == old(Abs())
      ensures ok <==> Returns(old(Abs()), KV(key, Cell([], true)), fault, memtableSizeLimit)
    {
      PlainlyWritten(View(Abs()), key, Cell([], true), fault);
      hide View;
      hide Kept;
      hide AfterWrite;
      hide PlainStep;
      AppendFailedIs(Abs(), KV(key, Cell([], true)), memtableSizeLimit);
      ok := WriteOne(KV(key, Cell([], true)), fault);
    }

    /** What `Put` and `Delete` share: append to the log, update the memtable, flush it if it is full. */
    method WriteOne(op: Row, fault: Fault) returns (ok: bool)
      requires Valid() && fault != CrashAfterAppend && fault != CrashAfterRun
      modifies this, memtable, memtable.place.Keys
      ensures Abs() == AfterWrite(old(Abs()), op, fault, memtableSizeLimit)
      ensures Kept(old(Abs()), op, fault, memtableSizeLimit) ==>
        Valid() && View(Abs()) == PlainStep(View(old(Abs())), Write(op, fault))
      ensures ok <==> Returns(old(Abs()), op, fault, memtableSizeLimit)
    {
      hide Memtable.Valid;
      hide Loaded;
      hide Sound;
      hide Full;
      hide View;
      ghost var before := Abs();
      if Kept(before, op, fault, memtableSizeLimit) {
        WriteSound(before, op, fault, memtableSizeLimit);
        EncodableStays(before, op);
      }
      if fault == AppendFailed {
        return false;
      }
      LogAndHold(op);
      FlushDueIs(before, op, memtableSizeLimit);
      FullBySize(memtable, Abs(), memtableSizeLimit);
      ok := MaybeFlush(fault);
    }

    method LogAndHold(op: Row)
      requires memtable.Valid()
      modifies this`wal, memtable, memtable.place.Keys
      ensures memtable.Valid() && Abs() == Remember(Append(old(Abs()), op), op)
      ensures fresh(memtable.place.Keys - old(memtable.place.Keys))
    {
      hide Memtable.Valid;
      hide ToMap;
      hide WAL.Parse;
      hide WAL.Record;
      wal := WAL.Append(wal, op.key, op.value.value, op.value.tombstone);
      memtable.Put(op.key, op.value.value, op.value.tombstone);
    }

    /** The memtable becomes a run on disk and a new one takes its place. */
    method FlushTable(entries: seq<Row>)
      requires entries == Listing(memtable.Contents())
      modifies this
      ensures memtable.Valid() && fresh({memtable} + memtable.place.Keys)
      ensures Abs() == Adopt(WriteRun(old(Abs())))
      ensures old(Loaded(files, sstables) && nextSSTableSeq !in files && AllEncodable(memtable.Contents())) ==>
        Loaded(files, sstables)
    {
      hide Memtable.Valid;
      hide Loaded;
      hide AllEncodable;
      hide ToMap;
      hide Numbers;
      hide Listing;
      hide FileOf;
      var sst, file := NewRun(files, sstables, nextSSTableSeq, entries, memtable.Contents());
      files := files[nextSSTableSeq := file];
      nextSSTableSeq := nextSSTableSeq + 1;
      sstables := [sst] + sstables;
      memtable := new Memtable();
    }

    /** Writes the memtable out as a new run once it has grown past its limit. */
    method MaybeFlush(fault: Fault) returns (ok: bool)
      requires memtable.Valid()
      requires fault == Clean || fault == RunFailed || fault == ResetFailed
      modifies this
      ensures memtable.Valid()
      ensures Abs() == if !Full(old(Abs()), memtableSizeLimit) || fault == RunFailed then old(Abs())
                       else if fault == ResetFailed then Adopt(WriteRun(old(Abs())))
                       else Adopt(WriteRun(old(Abs()))).(wal := [])
      ensures
        (&& old(Loaded(files, sstables)) && AllEncodable(old(memtable.Contents()))
         && (Full(old(Abs()), memtableSizeLimit) && fault != RunFailed ==> old(nextSSTableSeq !in files)))
        ==> Loaded(files, sstables)
      ensures old(memtable.size) < memtableSizeLimit ==> Abs() == old(Abs())
      ensures old(memtable.size) >= memtableSizeLimit && fault == Clean ==>
        wal == [] && memtable.Contents() == map[] && nextSSTableSeq == old(nextSSTableSeq) + 1
      ensures ok <==> fault == Clean || old(memtable.size) < memtableSizeLimit
      ensures memtable == old(memtable) || fresh({memtable} + memtable.place.Keys)
    {
      hide Memtable.Valid;
      hide AllEncodable;
      hide Loaded;
      hide Full;
      hide ToMap;
      hide Lists;
      var entries := memtable.Entries();
      EntriesDecideFull(entries, Abs(), memtableSizeLimit);
      if memtable.size < memtableSizeLimit {
        return true;
      }
      if fault == RunFailed {
        return false;
      }
      FlushTable(entries);
      if fault == ResetFailed {
        return false;
      }
      wal := [];
      return true;
    }

    /**
     * Merges all runs into one and deletes the old files. If the new run's number is not in use the engine goes on
     * showing what it showed; otherwise the deletion takes the new file along.
     */
    method Compact() returns (r: Result<(), ReadError>)
      requires Valid()
      modifies this
      ensures r.Ok? && Abs() == Compacted(old(Abs()))
      ensures old(|sstables| >= 2 ==> nextSSTableSeq !in files) ==> Valid() && View(Abs()) == View(old(Abs()))
      ensures old(|sstables| >= 2 && nextSSTableSeq !in files) ==>
        && files.Keys == {old(nextSSTableSeq)} && nextSSTableSeq == old(nextSSTableSeq) + 1
        && forall k :: k in Stack(files, Numbers(sstables)) ==> !Stack(files, Numbers(sstables))[k].tombstone
    {
      hide Stack;
      hide Memtable.Valid;
      hide View;
      hide IsRun;
      hide AllEncodable;
      hide WAL.Parse;
      hide LoadedTable;
      if |sstables| >= 2 ==> nextSSTableSeq !in files {
        CompactSound(Abs());
      }
      if |sstables| < 2 {
        return Ok(());
      }
      var sst, file, rest := MergedRun(files, sstables, nextSSTableSeq);
      hide Loaded;
      files := rest;
      nextSSTableSeq := nextSSTableSeq + 1;
      sstables := [sst];
      return Ok(());
    }

    /** Loads the runs of a directory and replays its log. */
    static method Open(files: map<nat, seq<Byte>>, wal: seq<Byte>, limit: int) returns (r: Result<Engine, OpenError>)
      ensures r.Ok? <==> WAL.Parse(wal).Ok? && forall n :: n in files ==> Parse(files[n]).Ok?
      ensures r.Ok? ==> fresh(r.value) && fresh(r.value.memtable) && fresh(r.value.memtable.place.Keys)
      ensures r.Ok? ==> r.value.Ready() && r.value.memtableSizeLimit == limit && r.value.Abs() == Reopen(files, wal)
    {
      var loaded := LoadTables(files);
      if loaded.Err? {
        return Err(CorruptRun);
      }
      hide Memtable.Valid;
      hide Loaded;
      hide WAL.Parse;
      var memtable := new Memtable();
      var replayed := WAL.ReplayWAL(wal, memtable);
      if replayed.Err? {
        return Err(CorruptLog);
      }
      assert memtable.Contents() == Logged(wal);
      var e := new Engine(files, wal, memtable, loaded.value, |loaded.value|, limit);
      return Ok(e);
    }
  }
}
