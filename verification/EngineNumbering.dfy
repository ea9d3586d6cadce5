/**
 * `Open` takes the number of run files as the next file number. After a compaction has left one
 * high-numbered file this number is already in the past: which flushes then survive a restart,
 * exactly, and a history in which a write is lost.
 */
module EngineNumbering {
  import opened Bytes
  import opened SkipList
  import opened SortedRuns
  import opened EngineModel
  import opened EngineRuns
  import WAL = WriteAheadLog

  /** What a directory's runs hold, newest number on top. */
  ghost function StackOf(files: map<nat, seq<Byte>>): map<Key, Cell>
  {
    Stack(files, Ordered(files.Keys))
  }

  ghost predicate Holds(files: map<nat, seq<Byte>>, k: Key, n: nat)
  {
    n in files && k in RunMap(files[n])
  }

  /** `n` is the highest-numbered file with a binding for `k`. */
  ghost predicate IsTop(files: map<nat, seq<Byte>>, k: Key, n: nat)
  {
    Holds(files, k, n) && forall m: nat :: Holds(files, k, m) ==> m <= n
  }

  lemma {:induction false} StackTop(files: map<nat, seq<Byte>>, runs: seq<nat>, s: set<nat>, k: Key, n: nat)
    requires Orders(runs, s) && s <= files.Keys
    requires n in s && Holds(files, k, n) && forall m: nat :: m in s && Holds(files, k, m) ==> m <= n
    ensures k in Stack(files, runs) && Stack(files, runs)[k] == RunMap(files[n])[k]
  {
    assert runs != [];
    OrderRest(runs, s);
    assert runs[0] in runs;
    if runs[0] != n {
      assert !Holds(files, k, runs[0]);
      StackTop(files, runs[1..], s - {runs[0]}, k, n);
    }
  }

  lemma {:induction false} StackHolder(files: map<nat, seq<Byte>>, runs: seq<nat>, k: Key) returns (n: nat)
    requires k in Stack(files, runs)
    ensures n in runs && Holds(files, k, n)
  {
    if runs[0] in files && k in RunMap(files[runs[0]]) {
      n := runs[0];
    } else {
      n := StackHolder(files, runs[1..], k);
    }
  }

  /** A key is looked up in the highest file that has it. */
  lemma TopDecides(files: map<nat, seq<Byte>>, k: Key, n: nat)
    requires IsTop(files, k, n)
    ensures k in StackOf(files) && StackOf(files)[k] == RunMap(files[n])[k]
  {
    StackTop(files, Ordered(files.Keys), files.Keys, k, n);
  }

  lemma TopExists(files: map<nat, seq<Byte>>, k: Key) returns (n: nat)
    requires k in StackOf(files) || exists m: nat :: Holds(files, k, m)
    ensures IsTop(files, k, n)
  {
    var m: nat;
    if k in StackOf(files) {
      m := StackHolder(files, Ordered(files.Keys), k);
    } else {
      m :| Holds(files, k, m);
    }
    var holders := set h | h in files && Holds(files, k, h);
    assert m in holders;
    n := Highest(holders);
    assert forall h: nat :: Holds(files, k, h) ==> h in holders;
  }

  /** Files that hold the same under a key look it up alike. */
  lemma SameLookup(files: map<nat, seq<Byte>>, others: map<nat, seq<Byte>>, k: Key)
    requires forall m: nat :: Holds(files, k, m) <==> Holds(others, k, m)
    requires forall m: nat :: Holds(files, k, m) && Holds(others, k, m) ==> files[m] == others[m]
    ensures k in StackOf(files) <==> k in StackOf(others)
    ensures k in StackOf(files) ==> StackOf(files)[k] == StackOf(others)[k]
  {
    if k in StackOf(files) || k in StackOf(others) {
      var n: nat;
      if k in StackOf(files) {
        n := TopExists(files, k);
      } else {
        n := TopExists(others, k);
      }
      TopDecides(files, k, n);
      TopDecides(others, k, n);
    }
  }

  /** The directory after the engine flushes `table` under its next number. */
  ghost function Flushed(files: map<nat, seq<Byte>>, next: nat, table: map<Key, Cell>): map<nat, seq<Byte>>
  {
    files[next := FileOf(Listing(table))]
  }

  /** Whatever table is flushed under `next`, a restart shows it over what was there before. */
  ghost predicate FlushSurvives(files: map<nat, seq<Byte>>, next: nat)
  {
    forall table :: AllEncodable(table) ==>
      Visible(StackOf(Flushed(files, next, table))) == Visible(StackOf(files) + table)
  }

  /** No binding lies above the number, and the file it would replace, if any, shows nothing of its own. */
  ghost predicate NumberUsable(files: map<nat, seq<Byte>>, next: nat)
  {
    && (forall m :: m in files && next < m ==> RunMap(files[m]) == map[])
    && Visible(StackOf(files - {next})) == Visible(StackOf(files))
  }

  lemma UsableSurvives(files: map<nat, seq<Byte>>, next: nat, table: map<Key, Cell>)
    requires NumberUsable(files, next) && AllEncodable(table)
    ensures Visible(StackOf(Flushed(files, next, table))) == Visible(StackOf(files) + table)
  {
    var flushed, others := Flushed(files, next, table), files - {next};
    WrittenRun(table);
    forall k
      ensures k in Visible(StackOf(flushed)) <==> k in Visible(StackOf(files) + table)
      ensures k in Visible(StackOf(flushed)) ==>
        Visible(StackOf(flushed))[k] == Visible(StackOf(files) + table)[k]
    {
      if k in table {
        assert IsTop(flushed, k, next);
        TopDecides(flushed, k, next);
      } else {
        SameLookup(flushed, others, k);
        assert k in Visible(StackOf(others)) <==> k in Visible(StackOf(files));
      }
    }
  }

  /** A binding above the number hides what is flushed below it. */
  lemma HigherBindingHides(files: map<nat, seq<Byte>>, next: nat, top: nat, k: Key, value: seq<Byte>)
    requires next < top && IsTop(files, k, top) && Encodable(KV(k, Cell(value, false)))
    requires RunMap(files[top])[k].tombstone || RunMap(files[top])[k].value != value
    ensures var table := map[k := Cell(value, false)];
            Visible(StackOf(Flushed(files, next, table))) != Visible(StackOf(files) + table)
  {
    var table := map[k := Cell(value, false)];
    var flushed := Flushed(files, next, table);
    WrittenRun(table);
    assert Holds(flushed, k, top);
    forall m: nat | Holds(flushed, k, m)
      ensures m <= top
    {
      assert m != next ==> Holds(files, k, m);
    }
    TopDecides(flushed, k, top);
    hide StackOf;
    assert Visible(StackOf(files) + table)[k] == value;
  }

  lemma BindingAbove(files: map<nat, seq<Byte>>, next: nat, m: nat, k: Key)
    requires forall n :: n in files ==> IsRun(files[n])
    requires next < m && Holds(files, k, m)
    ensures !FlushSurvives(files, next)
  {
    var top := TopExists(files, k);
    RunEncodable(files[top]);
    var cell := RunMap(files[top])[k];
    assert Encodable(KV(k, cell));
    var value: seq<Byte> := if !cell.tombstone && cell.value == [] then [0] else [];
    HigherBindingHides(files, next, top, k, value);
    assert AllEncodable(map[k := Cell(value, false)]);
  }

  lemma SurvivesUsable(files: map<nat, seq<Byte>>, next: nat)
    requires forall n :: n in files ==> IsRun(files[n])
    requires FlushSurvives(files, next)
    ensures NumberUsable(files, next)
  {
    forall m | m in files && next < m
      ensures RunMap(files[m]) == map[]
    {
      if RunMap(files[m]) != map[] {
        var k :| k in RunMap(files[m]);
        BindingAbove(files, next, m, k);
      }
    }
    var flushed, others := Flushed(files, next, map[]), files - {next};
    WrittenRun(map[]);
    assert AllEncodable(map[]);
    forall k
      ensures k in StackOf(flushed) <==> k in StackOf(others)
      ensures k in StackOf(flushed) ==> StackOf(flushed)[k] == StackOf(others)[k]
    {
      SameLookup(flushed, others, k);
    }
    assert StackOf(flushed) == StackOf(others);
    NothingOver(StackOf(files));
  }

  /**
   * Exactly when every flush survives a restart: no file above the next number binds anything, and a file
   * the flush would truncate shows nothing that the other files do not.
   */
  lemma FlushSurvivesExactlyWhen(files: map<nat, seq<Byte>>, next: nat)
    requires forall n :: n in files ==> IsRun(files[n])
    ensures FlushSurvives(files, next) <==> NumberUsable(files, next)
  {
    if FlushSurvives(files, next) {
      SurvivesUsable(files, next);
    }
    if NumberUsable(files, next) {
      forall table | AllEncodable(table)
        ensures Visible(StackOf(Flushed(files, next, table))) == Visible(StackOf(files) + table)
      {
        UsableSurvives(files, next, table);
      }
    }
  }

  // ---- Compacting under a number in use ----

  /**
   * The merged run outlives the removal of the old ones exactly if its number was not in use. If it was, nothing
   * outlives it: what is left is the table in memory, and after a restart what the log holds.
   */
  lemma MergedRunSurvivesExactlyWhen(s: State)
    requires Sound(s) && |s.runs| >= 2
    ensures s.next in Compacted(s).files <==> s.next !in s.files
    ensures s.next in s.files ==>
      && Compacted(s).files == map[] && View(Compacted(s)) == Visible(s.table)
      && View(Reopen(Compacted(s).files, s.wal)) == Visible(Logged(s.wal))
  {
    hide Stack;
    hide Logged;
    hide IsRun;
    hide AllEncodable;
    hide FileOf;
    hide Listing;
    hide Visible;
    hide Merged;
    Removed(s.files, s.runs, s.next, FileOf(Listing(Merged(Stack(s.files, s.runs)))));
    if s.next in s.files {
      assert s.(table := s.table) == s;
      CompactedShows(s, s.table);
      NothingStacked(Ordered({}), Logged(s.wal));
    }
  }

  lemma Removed(files: map<nat, seq<Byte>>, runs: seq<nat>, next: nat, file: seq<Byte>)
    requires files.Keys == set n | n in runs
    ensures next in files ==> files[next := file] - (set n | n in runs) == map[]
    ensures next !in files ==> next in files[next := file] - (set n | n in runs)
  {
  }

  lemma {:induction false} NothingStacked(runs: seq<nat>, upper: map<Key, Cell>)
    ensures Stack(map[], runs) + upper == upper
  {
    if runs != [] {
      NothingStacked(runs[1..], map[]);
    }
  }

  /** Whatever the table in memory, compacting these runs cannot be seen. */
  ghost predicate CompactionSafe(s: State)
  {
    forall table :: View(Compacted(s.(table := table))) == View(s.(table := table))
  }

  /** Exactly when a compaction is safe: its number is not in use, or the runs show nothing that could be lost. */
  lemma CompactionSafeExactlyWhen(s: State)
    requires Sound(s) && |s.runs| >= 2
    ensures CompactionSafe(s) <==> s.next !in s.files || Visible(Stack(s.files, s.runs)) == map[]
  {
    var base := Stack(s.files, s.runs);
    forall table: map<Key, Cell>
      ensures View(Compacted(s.(table := table))) ==
        if s.next in s.files then Visible(table) else View(s.(table := table))
    {
      CompactedShows(s, table);
    }
    if CompactionSafe(s) && s.next in s.files {
      var bare := s.(table := map[]);
      assert View(Compacted(bare)) == View(bare);
      NothingOver(base);
      assert Visible(map[]) == map[];
    }
    if Visible(base) == map[] {
      forall table: map<Key, Cell>
        ensures Visible(base + table) == Visible(table)
      {
        NothingShown(base, table);
      }
    }
  }

  lemma MergedEncodable(m: map<Key, Cell>)
    requires AllEncodable(m)
    ensures AllEncodable(Merged(m))
  {
  }

  lemma CompactedShows(s: State, table: map<Key, Cell>)
    requires Sound(s) && |s.runs| >= 2
    ensures View(Compacted(s.(table := table))) ==
      if s.next in s.files then Visible(table) else View(s.(table := table))
  {
    hide FileOf;
    hide Listing;
    hide Merged;
    hide IsRun;
    hide AllEncodable;
    hide Logged;
    hide Visible;
    var file := FileOf(Listing(Merged(Stack(s.files, s.runs))));
    Removed(s.files, s.runs, s.next, file);
    if s.next in s.files {
      NothingStacked([s.next], table);
    } else {
      StackEncodable(s.files, s.runs);
      MergedEncodable(Stack(s.files, s.runs));
      WrittenRun(Merged(Stack(s.files, s.runs)));
      OnlyTheNew(s.files, s.runs, s.next, file);
      SingleRun(file, s.next);
      CompactionInvisible(Stack(s.files, s.runs), table);
    }
  }

  lemma NothingShown(base: map<Key, Cell>, table: map<Key, Cell>)
    requires Visible(base) == map[]
    ensures Visible(base + table) == Visible(table)
  {
    assert forall k :: k in Visible(base) <==> k in base && !base[k].tombstone;
  }

  // ---- A history that loses a write ----

  const A: Key := [97]
  const B: Key := [98]

  function Put(k: Key, value: Byte): Event
  {
    Write(KV(k, Cell([value], false)), Clean)
  }

  /** Two flushed writes, a compaction, a restart, a newer write to the first key, another restart. */
  const HISTORY := [Put(A, 1), Put(B, 1), Compact, Restart, Put(A, 2), Restart]

  lemma {:induction false} SizeNotNegative(rows: seq<Row>)
    ensures TotalSize(rows) >= 0
  {
    if rows != [] {
      SizeNotNegative(rows[..|rows| - 1]);
    }
  }

  /** With every write flushed at once, a write to a directory of known runs adds one under the next number. */
  lemma FlushedWrite(s: State, k: Key, value: Byte)
    requires s.wal == [] && s.table == map[]
    ensures var s' := Step(s, Put(k, value), 0);
            && s'.wal == [] && s'.table == map[]
            && s'.files == s.files[s.next := FileOf(Listing(map[k := Cell([value], false)]))]
            && s'.runs == [s.next] + s.runs && s'.next == s.next + 1
  {
    var op := KV(k, Cell([value], false));
    var held := Remember(Append(s, op), op);
    SizeNotNegative(Listing(held.table));
    assert held.table == map[k := Cell([value], false)];
  }

  ghost function After(i: nat): State
    requires i <= |HISTORY|
  {
    RunFrom(NEW, HISTORY[..i], 0)
  }

  lemma AfterStep(i: nat)
    requires i < |HISTORY|
    ensures After(i + 1) == Step(After(i), HISTORY[i], 0)
  {
    assert HISTORY[..i + 1][..i] == HISTORY[..i];
  }

  function One(k: Key, value: Byte): map<Key, Cell>
  {
    map[k := Cell([value], false)]
  }

  lemma AfterTwoWrites()
    ensures var s := After(2);
            && s.wal == [] && s.table == map[] && s.next == 2 && s.runs == [1, 0]
            && s.files == map[0 := FileOf(Listing(One(A, 1))), 1 := FileOf(Listing(One(B, 1)))]
  {
    AfterStep(0);
    AfterStep(1);
    FlushedWrite(NEW, A, 1);
    FlushedWrite(After(1), B, 1);
  }

  lemma TwoRuns(first: seq<Byte>, second: seq<Byte>)
    ensures Stack(map[0 := first, 1 := second], [1, 0]) == RunMap(first) + RunMap(second)
  {
    var files: map<nat, seq<Byte>> := map[0 := first, 1 := second];
    assert [1, 0][1..] == [0] && [0][1..] == [];
    assert Stack(files, [0]) == map[] + RunMap(first);
    assert map[] + RunMap(first) == RunMap(first);
  }

  lemma CompactTwoRuns(s: State, first: seq<Byte>, second: seq<Byte>)
    requires s.runs == [1, 0] && s.files == map[0 := first, 1 := second] && s.next == 2
    ensures Compacted(s).files == map[s.next := FileOf(Listing(Merged(RunMap(first) + RunMap(second))))]
    ensures Compacted(s).wal == s.wal && Compacted(s).table == s.table
  {
    TwoRuns(first, second);
    assert s.files.Keys == {0, 1} == set n | n in s.runs;
    OnlyTheNew(s.files, s.runs, s.next, FileOf(Listing(Merged(RunMap(first) + RunMap(second)))));
  }

  /** Both bindings end up in the one file numbered 2. */
  lemma AfterCompact() returns (file: seq<Byte>)
    ensures After(3).files == map[2 := file] && After(3).wal == [] && After(3).table == map[] && IsRun(file)
    ensures A in RunMap(file) && RunMap(file)[A] == Cell([1], false)
  {
    hide After;
    hide RunMap;
    hide FileOf;
    hide Listing;
    hide Compacted;
    AfterTwoWrites();
    ThirdStep();
    KnownRuns();
    file := FileOf(Listing(Merged(One(A, 1) + One(B, 1))));
    CompactTwoRuns(After(2), FileOf(Listing(One(A, 1))), FileOf(Listing(One(B, 1))));
  }

  lemma KnownRuns()
    ensures RunMap(FileOf(Listing(One(A, 1)))) == One(A, 1) && RunMap(FileOf(Listing(One(B, 1)))) == One(B, 1)
    ensures var merged := Merged(One(A, 1) + One(B, 1));
            A in merged && merged[A] == Cell([1], false) && RunMap(FileOf(Listing(merged))) == merged
            && IsRun(FileOf(Listing(merged)))
  {
    hide RunMap;
    hide FileOf;
    hide Listing;
    WrittenRun(One(A, 1));
    WrittenRun(One(B, 1));
    WrittenRun(Merged(One(A, 1) + One(B, 1)));
  }

  lemma ThirdStep()
    ensures After(3) == Compacted(After(2))
  {
    AfterStep(2);
    hide After;
    hide Compacted;
  }

  lemma RestartCounts(s: State, file: seq<Byte>)
    requires s.files == map[2 := file] && s.wal == []
    ensures var s' := Reopen(s.files, s.wal);
            s'.files == map[2 := file] && s'.wal == [] && s'.table == map[] && s'.next == 1
  {
    EmptyLog();
    assert |map[2 := file]| == 1;
  }

  /** Of two files the one with the higher number decides, though it was written first. */
  lemma OlderOnTop(older: seq<Byte>, newer: seq<Byte>, k: Key)
    requires k in RunMap(older) && !RunMap(older)[k].tombstone
    ensures var files := map[2 := older][1 := newer];
            && k in View(Reopen(files, []))
            && View(Reopen(files, []))[k] == RunMap(older)[k].value
  {
    var files := map[2 := older][1 := newer];
    assert Holds(files, k, 2) && IsTop(files, k, 2);
    TopDecides(files, k, 2);
    EmptyLog();
    NothingOver(StackOf(files));
  }

  /**
   * The second write to the first key is acknowledged and shown, then lost: after the restart the older
   * file, numbered higher, lies on top again.
   */
  lemma ReopenAfterCompactLosesWrite()
    ensures A in PlainRun(map[], HISTORY) && PlainRun(map[], HISTORY)[A] == [2]
    ensures A in View(RunFrom(NEW, HISTORY, 0)) && View(RunFrom(NEW, HISTORY, 0))[A] == [1]
  {
    var older := AfterCompact();
    AfterStep(3);
    RestartCounts(After(3), older);
    AfterStep(4);
    FlushedWrite(After(4), A, 2);
    AfterStep(5);
    WholeHistory();
    PlainHistory();
    LastRestart(older, FileOf(Listing(One(A, 2))));
  }

  /**
   * One compaction more, and everything is lost: `Open` counted two files, so the merged run is written over the
   * one numbered 2 and removed with it.
   */
  lemma SecondCompactLosesEverything()
    ensures A in PlainRun(map[], HISTORY + [Compact]) && B in PlainRun(map[], HISTORY + [Compact])
    ensures RunFrom(NEW, HISTORY + [Compact], 0).files == map[] && View(RunFrom(NEW, HISTORY + [Compact], 0)) == map[]
  {
    var older := AfterCompact();
    var newer := FileOf(Listing(One(A, 2)));
    AfterStep(3);
    RestartCounts(After(3), older);
    AfterStep(4);
    FlushedWrite(After(4), A, 2);
    AfterStep(5);
    WholeHistory();
    PlainHistory();
    assert (HISTORY + [Compact])[..6] == HISTORY;
    WrittenRun(One(A, 2));
    CountedAgain(older, newer);
    MergedRunSurvivesExactlyWhen(After(6));
  }

  /** Reopened, the directory with files 1 and 2 gives the next run the number 2. */
  lemma CountedAgain(older: seq<Byte>, newer: seq<Byte>)
    requires IsRun(older) && IsRun(newer)
    ensures var s := Reopen(map[2 := older][1 := newer], []);
            Sound(s) && |s.runs| >= 2 && s.next == 2 && s.next in s.files && s.table == map[]
  {
    hide IsRun;
    hide Logged;
    hide Ordered;
    hide Orders;
    EmptyLog();
    var files: map<nat, seq<Byte>> := map[2 := older][1 := newer];
    assert files.Keys == {1, 2} && |files| == |files.Keys| == 2;
    TwoNumbers();
  }

  lemma TwoNumbers()
    ensures Ordered({1, 2}) == [2, 1] && {1, 2} == set n | n in [2, 1]
  {
    OrderUnique(Ordered({1, 2}), [2, 1], {1, 2});
  }

  lemma LastRestart(older: seq<Byte>, newer: seq<Byte>)
    requires After(5).files == map[2 := older][1 := newer] && After(5).wal == []
    requires A in RunMap(older) && RunMap(older)[A] == Cell([1], false)
    ensures A in View(After(6)) && View(After(6))[A] == [1]
  {
    AfterStep(5);
    OlderOnTop(older, newer, A);
  }

  lemma WholeHistory()
    ensures RunFrom(NEW, HISTORY, 0) == After(6)
  {
    assert HISTORY[..6] == HISTORY;
  }

  lemma PlainHistory()
    ensures A in PlainRun(map[], HISTORY) && PlainRun(map[], HISTORY)[A] == [2] && B in PlainRun(map[], HISTORY)
  {
    assert HISTORY[..6] == HISTORY;
    PlainPrefix(0);
    PlainPrefix(1);
    PlainPrefix(2);
    PlainPrefix(3);
    PlainPrefix(4);
    PlainPrefix(5);
  }

  lemma PlainPrefix(i: nat)
    requires i < |HISTORY|
    ensures PlainRun(map[], HISTORY[..i + 1]) == PlainStep(PlainRun(map[], HISTORY[..i]), HISTORY[i])
  {
    assert HISTORY[..i + 1][..i] == HISTORY[..i];
  }
}
