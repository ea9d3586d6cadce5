/**
 * The engine over whole histories: writes, failures, crashes, restarts and compactions leave it showing
 * the plain map those writes describe, as long as file numbers stay above those in use.
 */
module EngineRuns {
  import opened Bytes
  import opened SkipList
  import opened SortedRuns
  import opened EngineModel
  import WAL = WriteAheadLog

  // ---- Compaction ----

  /** Dropping tombstones from a full merge cannot be seen, whatever lies above it. */
  lemma CompactionInvisible(base: map<Key, Cell>, upper: map<Key, Cell>)
    ensures Visible(Merged(base) + upper) == Visible(base + upper)
  {
    var c, b := Merged(base) + upper, base + upper;
    forall k | k in b
      ensures k in Visible(b) <==> k in Visible(c)
      ensures k in Visible(b) ==> Visible(b)[k] == Visible(c)[k]
    {
      if k in upper {
        assert b[k] == upper[k] && c[k] == upper[k];
      } else {
        assert b[k] == base[k];
      }
    }
    forall k | k in Visible(c)
      ensures k in Visible(b)
    {
      assert k in b;
    }
  }

  lemma RunEncodable(file: seq<Byte>)
    requires IsRun(file)
    ensures AllEncodable(RunMap(file))
  {
    FileParsed(file);
    var rows := Parse(file).value;
    forall k | k in ToMap(rows)
      ensures Encodable(KV(k, ToMap(rows)[k]))
    {
      var i := KeyAt(rows, k);
      assert Encodable(rows[i]);
    }
  }

  lemma {:induction false} StackEncodable(files: map<nat, seq<Byte>>, runs: seq<nat>)
    requires forall n :: n in files ==> IsRun(files[n])
    ensures AllEncodable(Stack(files, runs))
  {
    if runs != [] {
      StackEncodable(files, runs[1..]);
      if runs[0] in files {
        RunEncodable(files[runs[0]]);
      }
    }
  }

  lemma SingleRun(file: seq<Byte>, n: nat)
    ensures Stack(map[n := file], [n]) == RunMap(file)
    ensures Orders([n], map[n := file].Keys)
  {
    assert [n][1..] == [];
    assert Stack(map[n := file], [n][1..]) == map[];
    assert map[] + RunMap(file) == RunMap(file);
  }

  /** A completed compaction under an unused number leaves exactly the file it wrote. */
  lemma OnlyTheNew(files: map<nat, seq<Byte>>, runs: seq<nat>, next: nat, file: seq<Byte>)
    requires next !in files && files.Keys == set n | n in runs
    ensures files[next := file] - (set n | n in runs) == map[next := file]
  {
  }

  /** Under an unused number a completed compaction changes nothing a reader can see. */
  lemma CompactSound(s: State)
    requires Sound(s) && (|s.runs| >= 2 ==> s.next !in s.files)
    ensures Sound(Compacted(s)) && View(Compacted(s)) == View(s)
    ensures |s.runs| >= 2 ==> |Compacted(s).runs| == 1 && Compacted(s).files.Keys == {s.next}
    ensures |s.runs| >= 2 ==>
      forall k :: k in Stack(Compacted(s).files, Compacted(s).runs) ==>
        !Stack(Compacted(s).files, Compacted(s).runs)[k].tombstone
  {
    if |s.runs| >= 2 {
      var base := Stack(s.files, s.runs);
      var file := FileOf(Listing(Merged(base)));
      StackEncodable(s.files, s.runs);
      WrittenRun(Merged(base));
      OnlyTheNew(s.files, s.runs, s.next, file);
      SingleRun(file, s.next);
      CompactionInvisible(base, s.table);
    }
  }

  /** Under an unused number a completed compaction changes nothing a reader, or a later restart, can see. */
  lemma CompactKeeps(s: State)
    requires Consistent(s) && (|s.runs| >= 2 ==> s.next !in s.files)
    ensures Consistent(Compacted(s)) && View(Compacted(s)) == View(s)
  {
    if |s.runs| >= 2 {
      var base := Stack(s.files, s.runs);
      var file := FileOf(Listing(Merged(base)));
      StackEncodable(s.files, s.runs);
      WrittenRun(Merged(base));
      OnlyTheNew(s.files, s.runs, s.next, file);
      SingleRun(file, s.next);
      CompactionInvisible(base, s.table);
      CompactionInvisible(base, Logged(s.wal));
    }
  }

  // ---- One step ----

  /** A flush goes under a number above all others, a compaction under one that is not in use. */
  ghost predicate Guarded(s: State, e: Event, limit: int)
  {
    WritesRun(s, e, limit) ==> if e.Compact? then s.next !in s.files else Fresh(s)
  }

  /** A write that returns shows what it should as long as the engine runs, if its flush has an unused number. */
  lemma WriteSound(s: State, op: Row, fault: Fault, limit: int)
    requires Sound(s) && Encodable(op) && fault != CrashAfterAppend && fault != CrashAfterRun
    requires WritesRun(s, Write(op, fault), limit) ==> s.next !in s.files
    ensures Sound(Step(s, Write(op, fault), limit))
    ensures View(Step(s, Write(op, fault), limit)) == PlainStep(View(s), Write(op, fault))
  {
    hide Sound;
    hide View;
    hide Full;
    hide Compacted;
    if fault != AppendFailed {
      var held := Remember(Append(s, op), op);
      AppendSound(s, op, fault);
      if Full(held, limit) && fault != RunFailed {
        RunSound(held);
      }
    }
  }

  /** A write keeps the engine consistent and shows what it should, however far it gets. */
  lemma WriteKeeps(s: State, op: Row, fault: Fault, limit: int)
    requires Consistent(s) && Guarded(s, Write(op, fault), limit) && Encodable(op)
    ensures Consistent(Step(s, Write(op, fault), limit))
    ensures View(Step(s, Write(op, fault), limit)) == PlainStep(View(s), Write(op, fault))
  {
    hide Consistent;
    hide View;
    hide Full;
    hide Reopen;
    hide Compacted;
    hide AllEncodable;
    hide FileOf;
    hide Listing;
    if fault != AppendFailed {
      var held := Remember(Append(s, op), op);
      AppendKeeps(s, op, fault);
      if fault == CrashAfterAppend {
        ReopenKeeps(held);
      } else if Full(held, limit) && fault != RunFailed {
        assert Fresh(held);
        RunKeeps(held);
        hide WriteRun;
        ReopenKeeps(Adopt(WriteRun(held)));
      }
    }
  }

  lemma StepKeeps(s: State, e: Event, limit: int)
    requires Consistent(s) && Guarded(s, e, limit)
    requires e.Write? ==> Encodable(e.op)
    ensures Consistent(Step(s, e, limit))
    ensures View(Step(s, e, limit)) == PlainStep(View(s), e)
  {
    hide Consistent;
    hide View;
    match e
    case Restart => ReopenKeeps(s);
    case Compact => CompactKeeps(s);
    case Write(op, fault) => WriteKeeps(s, op, fault, limit);
  }

  // ---- Histories ----

  ghost function RunFrom(s: State, events: seq<Event>, limit: int): State
  {
    if events == [] then s else Step(RunFrom(s, events[..|events| - 1], limit), events[|events| - 1], limit)
  }

  function PlainRun(m: map<Key, seq<Byte>>, events: seq<Event>): map<Key, seq<Byte>>
  {
    if events == [] then m else PlainStep(PlainRun(m, events[..|events| - 1]), events[|events| - 1])
  }

  ghost predicate AlwaysGuarded(s: State, events: seq<Event>, limit: int)
  {
    forall i :: 0 <= i < |events| ==> Guarded(RunFrom(s, events[..i], limit), events[i], limit)
  }

  predicate WritesEncodable(events: seq<Event>)
  {
    forall i :: 0 <= i < |events| && events[i].Write? ==> Encodable(events[i].op)
  }

  /** Through any history the engine shows exactly the map its effective writes describe. */
  lemma {:induction false} HistoryRefinesMap(s: State, events: seq<Event>, limit: int)
    requires Consistent(s) && WritesEncodable(events) && AlwaysGuarded(s, events, limit)
    ensures Consistent(RunFrom(s, events, limit))
    ensures View(RunFrom(s, events, limit)) == PlainRun(View(s), events)
  {
    if events != [] {
      var n := |events| - 1;
      forall i | 0 <= i < n
        ensures Guarded(RunFrom(s, events[..n][..i], limit), events[..n][i], limit)
      {
        assert events[..n][..i] == events[..i];
      }
      HistoryRefinesMap(s, events[..n], limit);
      assert Guarded(RunFrom(s, events[..n], limit), events[n], limit);
      StepKeeps(RunFrom(s, events[..n], limit), events[n], limit);
    }
  }

  // ---- When file numbers stay above those in use ----

  ghost predicate Dense(files: map<nat, seq<Byte>>)
  {
    forall n: nat :: n in files <==> n < |files|
  }

  /** Whether a step opens the directory anew. */
  ghost predicate Reopens(s: State, e: Event, limit: int)
  {
    match e
    case Write(op, fault) => fault == CrashAfterAppend || (fault == CrashAfterRun && WritesRun(s, e, limit))
    case Restart => true
    case Compact => false
  }

  lemma {:induction false} BoundedSet(s: set<nat>, k: nat)
    requires forall n :: n in s ==> n < k
    ensures |s| <= k
    ensures |s| == k ==> forall n: nat :: n < k ==> n in s
  {
    if k == 0 {
      assert s == {};
    } else {
      var t := s - {k - 1};
      BoundedSet(t, k - 1);
      assert k - 1 in s ==> s == t + {k - 1};
      assert k - 1 !in s ==> s == t;
    }
  }

  /**
   * `Open` numbers the next file by counting files. That number is above all others exactly when the
   * files are numbered 0, 1, 2 and so on without a gap.
   */
  lemma FreshExactlyWhenDense(files: map<nat, seq<Byte>>, wal: seq<Byte>)
    ensures Fresh(Reopen(files, wal)) <==> Dense(files)
  {
    if Fresh(Reopen(files, wal)) {
      assert |files.Keys| == |files|;
      BoundedSet(files.Keys, |files|);
    }
  }

  lemma StepFresh(s: State, e: Event, limit: int)
    requires Fresh(s) && (Reopens(s, e, limit) ==> Dense(Step(s, e, limit).files))
    ensures Fresh(Step(s, e, limit))
  {
    hide Full;
    hide FileOf;
    hide Listing;
    hide Merged;
    hide Stack;
    hide Logged;
    hide Dense;
    if Reopens(s, e, limit) {
      var s' := Step(s, e, limit);
      FreshExactlyWhenDense(s'.files, s'.wal);
    }
  }

  /** Whenever a history opens the directory anew, the files it finds are densely numbered. */
  ghost predicate DenseReopens(s: State, events: seq<Event>, limit: int)
  {
    forall i :: 0 <= i < |events| && Reopens(RunFrom(s, events[..i], limit), events[i], limit) ==>
      Dense(Step(RunFrom(s, events[..i], limit), events[i], limit).files)
  }

  lemma {:induction false} DenseReopensStayFresh(s: State, events: seq<Event>, limit: int, i: nat)
    requires Fresh(s) && DenseReopens(s, events, limit) && i <= |events|
    ensures Fresh(RunFrom(s, events[..i], limit))
  {
    if i > 0 {
      DenseReopensStayFresh(s, events, limit, i - 1);
      assert events[..i][..i - 1] == events[..i - 1];
      StepFresh(RunFrom(s, events[..i - 1], limit), events[i - 1], limit);
    }
  }

  /** Crashes and restarts at any point, and compactions, are invisible as long as reopening finds dense numbers. */
  lemma DenseHistoryRefinesMap(s: State, events: seq<Event>, limit: int)
    requires Consistent(s) && Fresh(s) && WritesEncodable(events) && DenseReopens(s, events, limit)
    ensures Consistent(RunFrom(s, events, limit))
    ensures View(RunFrom(s, events, limit)) == PlainRun(View(s), events)
  {
    forall i | 0 <= i < |events|
      ensures Guarded(RunFrom(s, events[..i], limit), events[i], limit)
    {
      DenseReopensStayFresh(s, events, limit, i);
    }
    HistoryRefinesMap(s, events, limit);
  }

  const NEW := State(map[], [], map[], [], 0)

  /** Files are numbered 0, 1, 2 and so on, and the next number is the next in line. */
  ghost predicate InLine(s: State)
  {
    Dense(s.files) && s.next == |s.files|
  }

  /** Whether a step merges runs: a compaction of fewer than two does nothing. */
  ghost predicate CompactsRuns(s: State, e: Event)
  {
    e.Compact? && |s.runs| >= 2
  }

  lemma StepInLine(s: State, e: Event, limit: int)
    requires InLine(s) && !CompactsRuns(s, e)
    ensures InLine(Step(s, e, limit))
  {
    if e.Write? && WritesRun(s, e, limit) {
      var held := Remember(Append(s, e.op), e.op);
      var files := s.files[s.next := FileOf(Listing(held.table))];
      assert |files| == |s.files| + 1;
      assert forall n: nat :: n in files <==> n < |s.files| + 1;
    }
  }

  /** No reopening of the directory comes after a compaction that merged runs. */
  ghost predicate NoReopenAfterCompaction(events: seq<Event>, limit: int)
  {
    forall i, j :: 0 <= i < j < |events| && CompactsRuns(RunFrom(NEW, events[..i], limit), events[i]) ==>
      !Reopens(RunFrom(NEW, events[..j], limit), events[j], limit)
  }

  lemma NewIsInLine()
    ensures InLine(NEW)
  {
  }

  lemma {:induction false} InLineBeforeCompaction(events: seq<Event>, limit: int, k: nat)
    requires k <= |events| && forall i :: 0 <= i < k ==> !CompactsRuns(RunFrom(NEW, events[..i], limit), events[i])
    ensures InLine(RunFrom(NEW, events[..k], limit))
  {
    hide Step;
    hide InLine;
    if k == 0 {
      NewIsInLine();
    } else {
      InLineBeforeCompaction(events, limit, k - 1);
      assert events[..k][..k - 1] == events[..k - 1];
      StepInLine(RunFrom(NEW, events[..k - 1], limit), events[k - 1], limit);
    }
  }

  /** Every file is loaded, and numbered below the next. */
  ghost predicate Tracked(s: State)
  {
    Fresh(s) && s.files.Keys == set n | n in s.runs
  }

  lemma StepTracked(s: State, e: Event, limit: int)
    requires Tracked(s) && (Reopens(s, e, limit) ==> Dense(Step(s, e, limit).files))
    ensures Tracked(Step(s, e, limit))
  {
    hide Full;
    hide FileOf;
    hide Listing;
    hide Merged;
    hide Stack;
    hide Logged;
    hide IsRun;
    StepFresh(s, e, limit);
    if CompactsRuns(s, e) {
      OnlyTheNew(s.files, s.runs, s.next, FileOf(Listing(Merged(Stack(s.files, s.runs)))));
    } else if e.Write? && WritesRun(s, e, limit) && e.fault != CrashAfterRun {
      assert (set n | n in [s.next] + s.runs) == (set n | n in s.runs) + {s.next};
    }
  }

  lemma {:induction false} RunTracked(events: seq<Event>, limit: int, k: nat)
    requires k <= |events| && DenseReopens(NEW, events, limit)
    ensures Tracked(RunFrom(NEW, events[..k], limit))
  {
    if k > 0 {
      RunTracked(events, limit, k - 1);
      assert events[..k][..k - 1] == events[..k - 1];
      StepTracked(RunFrom(NEW, events[..k - 1], limit), events[k - 1], limit);
    }
  }

  /** There are files, but none numbered 0, and none will be. */
  ghost predicate Gapped(s: State)
  {
    s.files != map[] && 0 !in s.files && s.next > 0
  }

  lemma CompactionGaps(s: State, e: Event, limit: int)
    requires Tracked(s) && CompactsRuns(s, e)
    ensures Gapped(Step(s, e, limit))
  {
    var file := FileOf(Listing(Merged(Stack(s.files, s.runs))));
    OnlyTheNew(s.files, s.runs, s.next, file);
    assert s.runs[0] in s.files;
    assert s.next in map[s.next := file];
  }

  lemma StepGapped(s: State, e: Event, limit: int)
    requires Tracked(s) && Gapped(s)
    ensures Reopens(s, e, limit) ==> !Dense(Step(s, e, limit).files)
    ensures !Reopens(s, e, limit) ==> Gapped(Step(s, e, limit))
  {
    hide Full;
    hide FileOf;
    hide Listing;
    hide Merged;
    hide Stack;
    hide Logged;
    hide IsRun;
    if CompactsRuns(s, e) {
      CompactionGaps(s, e, limit);
    } else {
      FilesStay(s, e, limit);
      hide Step;
      hide Reopens;
      hide Dense;
      NotDense(Step(s, e, limit).files);
      var n :| n in s.files;
      assert n in Step(s, e, limit).files;
    }
  }

  lemma NotDense(files: map<nat, seq<Byte>>)
    ensures files != map[] && 0 !in files ==> !Dense(files)
  {
  }

  lemma FilesStay(s: State, e: Event, limit: int)
    requires !CompactsRuns(s, e)
    ensures Reopens(s, e, limit) || s.next <= Step(s, e, limit).next
    ensures s.files.Keys <= Step(s, e, limit).files.Keys <= s.files.Keys + {s.next}
  {
    hide AfterWrite;
    hide Full;
    hide Stack;
    hide Logged;
    hide FileOf;
    hide Listing;
    if e.Write? {
      WriteFilesStay(s, e.op, e.fault, limit);
    }
  }

  lemma WriteFilesStay(s: State, op: Row, fault: Fault, limit: int)
    ensures var s' := AfterWrite(s, op, fault, limit);
            && s.files.Keys <= s'.files.Keys <= s.files.Keys + {s.next}
            && (Reopens(s, Write(op, fault), limit) || s.next <= s'.next)
  {
    hide Full;
    hide Logged;
    hide Ordered;
    hide WriteRun;
    hide WAL.Record;
    WrittenFiles(s, op);
  }

  lemma WrittenFiles(s: State, op: Row)
    ensures WriteRun(Remember(Append(s, op), op)).files.Keys == s.files.Keys + {s.next}
    ensures WriteRun(Remember(Append(s, op), op)).next == s.next
  {
    hide FileOf;
    hide Listing;
  }

  lemma {:induction false} GappedAfterCompaction(events: seq<Event>, limit: int, i: nat, k: nat)
    requires DenseReopens(NEW, events, limit)
    requires i < k <= |events| && CompactsRuns(RunFrom(NEW, events[..i], limit), events[i])
    ensures Gapped(RunFrom(NEW, events[..k], limit))
    ensures forall j :: i < j < k ==> !Reopens(RunFrom(NEW, events[..j], limit), events[j], limit)
    decreases k
  {
    hide Step;
    hide Reopens;
    hide CompactsRuns;
    hide Tracked;
    hide Gapped;
    hide Dense;
    var s := RunFrom(NEW, events[..k - 1], limit);
    assert events[..k][..k - 1] == events[..k - 1];
    assert RunFrom(NEW, events[..k], limit) == Step(s, events[k - 1], limit);
    RunTracked(events, limit, k - 1);
    if k - 1 == i {
      CompactionGaps(s, events[i], limit);
    } else {
      GappedAfterCompaction(events, limit, i, k - 1);
      StepGapped(s, events[k - 1], limit);
    }
  }

  /**
   * From an empty directory every reopening finds dense numbers exactly if none follows a compaction that
   * merged runs.
   */
  lemma DenseReopensExactly(events: seq<Event>, limit: int)
    ensures DenseReopens(NEW, events, limit) <==> NoReopenAfterCompaction(events, limit)
  {
    if DenseReopens(NEW, events, limit) {
      forall i, j | 0 <= i < j < |events| && CompactsRuns(RunFrom(NEW, events[..i], limit), events[i])
        ensures !Reopens(RunFrom(NEW, events[..j], limit), events[j], limit)
      {
        GappedAfterCompaction(events, limit, i, j + 1);
      }
    }
    if NoReopenAfterCompaction(events, limit) {
      forall j | 0 <= j < |events| && Reopens(RunFrom(NEW, events[..j], limit), events[j], limit)
        ensures Dense(Step(RunFrom(NEW, events[..j], limit), events[j], limit).files)
      {
        InLineBeforeCompaction(events, limit, j);
        StepInLine(RunFrom(NEW, events[..j], limit), events[j], limit);
      }
    }
  }

  lemma NewIsConsistent()
    ensures Consistent(NEW) && Fresh(NEW) && View(NEW) == map[]
  {
    EmptyLog();
  }

  /** From an empty directory, with no reopening after a compaction that merged runs, the plain map is shown. */
  lemma HistoryFromNewRefinesMap(events: seq<Event>, limit: int)
    requires WritesEncodable(events) && NoReopenAfterCompaction(events, limit)
    ensures View(RunFrom(NEW, events, limit)) == PlainRun(map[], events)
  {
    NewIsConsistent();
    DenseReopensExactly(events, limit);
    DenseHistoryRefinesMap(NEW, events, limit);
  }

  /** Without compaction every history, crashes and restarts anywhere, shows the plain map of its writes. */
  lemma FlushOnlyHistoryRefinesMap(events: seq<Event>, limit: int)
    requires WritesEncodable(events) && forall j :: 0 <= j < |events| ==> !events[j].Compact?
    ensures View(RunFrom(NEW, events, limit)) == PlainRun(map[], events)
  {
    HistoryFromNewRefinesMap(events, limit);
  }
}
