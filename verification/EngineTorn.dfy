/**
 * Crashes in the middle of writing the log or a run (api/queel/wal.go, api/queel/sstable.go): which torn files the
 * engine can open again, and what it then shows.
 */
module EngineTorn {
  import opened Bytes
  import opened SkipList
  import opened SortedRuns
  import opened EngineModel
  import WAL = WriteAheadLog

  /** `Open` reads every run and the whole log. */
  ghost predicate CanOpen(files: map<nat, seq<Byte>>, wal: seq<Byte>)
  {
    WAL.Parse(wal).Ok? && forall n :: n in files ==> Parse(files[n]).Ok?
  }

  /**
   * A crash after some bytes of a log record: the engine can be opened again exactly if none or all of them got
   * there, and then shows what it showed before, or that with the write.
   */
  lemma TornAppendExactly(s: State, op: Row, n: nat)
    requires Consistent(s) && Encodable(op) && n <= |WAL.Record(op)|
    ensures var wal := s.wal + WAL.Record(op)[..n];
            && (CanOpen(s.files, wal) <==> n == 0 || n == |WAL.Record(op)|)
            && (n == 0 ==> View(Reopen(s.files, wal)) == View(s))
            && (n == |WAL.Record(op)| ==> View(Reopen(s.files, wal)) == PlainStep(View(s), Write(op, CrashAfterAppend)))
  {
    WAL.TornAppendExactly(s.wal, op, n);
    hide View;
    if n == 0 {
      assert s.wal + WAL.Record(op)[..n] == s.wal;
      ReopenKeeps(s);
    }
    if n == |WAL.Record(op)| {
      assert WAL.Record(op)[..n] == WAL.Record(op);
      AppendKeeps(s, op, CrashAfterAppend);
      ReopenKeeps(Remember(Append(s, op), op));
    }
  }

  /**
   * A write whose record reached the log but whose call failed all the same, on syncing: the running engine does not
   * show it, a restart does, and so the two agree exactly if the write changes nothing.
   */
  lemma FailedSyncShows(s: State, op: Row)
    requires Consistent(s) && Encodable(op)
    ensures var s' := Append(s, op);
            && Sound(s') && View(s') == View(s)
            && View(Reopen(s'.files, s'.wal)) == PlainStep(View(s), Write(op, CrashAfterAppend))
            && (Consistent(s') <==> PlainStep(View(s), Write(op, CrashAfterAppend)) == View(s))
  {
    ConsistentIsSound(s);
    LoggedAppend(s.wal, op);
    AppendKeeps(s, op, CrashAfterAppend);
    ReopenKeeps(Remember(Append(s, op), op));
  }

  /** Replaying the log over a run with just part of the table shows the same as over none or all of it. */
  lemma PartReplayed(base: map<Key, Cell>, part: map<Key, Cell>, table: map<Key, Cell>, log: map<Key, Cell>)
    requires Visible(base + log) == Visible(base + table)
    requires forall k :: k in part ==> k in table && part[k] == table[k]
    ensures Visible((base + part) + log) == Visible(base + table)
  {
    var l, t, both := base + log, base + table, (base + part) + log;
    forall k
      ensures k in Visible(both) <==> k in Visible(t)
      ensures k in Visible(both) ==> Visible(both)[k] == Visible(t)[k]
    {
      assert k in Visible(l) <==> k in Visible(t);
      if k in part && k !in log {
        assert both[k] == t[k];
      } else {
        assert k in both <==> k in l;
        assert k in both ==> both[k] == l[k];
      }
    }
  }

  /** The run of a table cut short after `i` rows holds just those. */
  lemma PartOfTable(table: map<Key, Cell>, i: nat)
    requires AllEncodable(table) && i <= |Listing(table)|
    ensures var rows := Listing(table);
            && IsRun(FileOf(rows[..i])) && RunMap(FileOf(rows[..i])) == ToMap(rows[..i])
            && |FileOf(rows[..i])| <= |FileOf(rows)| && FileOf(rows)[..|FileOf(rows[..i])|] == FileOf(rows[..i])
            && forall k :: k in ToMap(rows[..i]) ==> k in table && ToMap(rows[..i])[k] == table[k]
  {
    var rows := Listing(table);
    ListingEncodable(table);
    TornFileReads(rows, i);
    hide Parse;
    hide FileOf;
    hide ToMap;
    hide AllEncodable;
    forall k | k in ToMap(rows[..i])
      ensures k in table && ToMap(rows[..i])[k] == table[k]
    {
      var j := KeyAt(rows[..i], k);
      BindingAt(rows[..i], j);
      BindingAt(rows, j);
    }
  }

  lemma ListingEncodable(table: map<Key, Cell>)
    requires AllEncodable(table)
    ensures forall i :: 0 <= i < |Listing(table)| ==> Encodable(Listing(table)[i])
  {
    forall i | 0 <= i < |Listing(table)|
      ensures Encodable(Listing(table)[i])
    {
      BindingAt(Listing(table), i);
    }
  }

  /** Opening on a run with part of the table, the log still there, shows what was shown before. */
  lemma PartReopened(s: State, file: seq<Byte>, part: map<Key, Cell>)
    requires Consistent(s) && Fresh(s) && IsRun(file) && RunMap(file) == part
    requires forall k :: k in part ==> k in s.table && part[k] == s.table[k]
    ensures var s' := Reopen(s.files[s.next := file], s.wal); Consistent(s') && View(s') == View(s)
  {
    hide IsRun;
    hide RunMap;
    hide Stack;
    hide Logged;
    hide Visible;
    hide AllEncodable;
    hide Orders;
    hide Ordered;
    RunOrdered(s, file);
    PartReplayed(Stack(s.files, s.runs), part, s.table, Logged(s.wal));
  }

  lemma RunOrdered(s: State, file: seq<Byte>)
    requires Consistent(s) && Fresh(s)
    ensures var files := s.files[s.next := file];
            && Orders(Ordered(files.Keys), files.Keys)
            && Stack(files, Ordered(files.Keys)) == Stack(s.files, s.runs) + RunMap(file)
  {
    hide RunMap;
    hide Stack;
    hide IsRun;
    hide View;
    hide Logged;
    var files := s.files[s.next := file];
    assert Fresh(s) ==> s.next !in s.files;
    hide Fresh;
    PutOnTop(s.runs, s.files.Keys, s.next);
    assert files.Keys == s.files.Keys + {s.next};
    OrderUnique(Ordered(files.Keys), [s.next] + s.runs, files.Keys);
    StackUnder(s.files, s.runs, s.next, file);
  }

  /**
   * A crash after some bytes of a run: the engine can be opened again exactly if the cut is between two records, and
   * then shows what it showed before, the log still holding all that was being written.
   */
  lemma TornFlushExactly(s: State, n: nat)
    requires Consistent(s) && Fresh(s) && n <= |FileOf(Listing(s.table))|
    ensures var files := s.files[s.next := FileOf(Listing(s.table))[..n]];
            && (CanOpen(files, s.wal) <==> IsBoundary(Listing(s.table), n))
            && (CanOpen(files, s.wal) ==>
                  Consistent(Reopen(files, s.wal)) && View(Reopen(files, s.wal)) == View(s))
  {
    var rows := Listing(s.table);
    ListingEncodable(s.table);
    TornFileExactly(rows, n);
    OthersOpen(s, FileOf(rows)[..n]);
    hide View;
    hide Consistent;
    hide Fresh;
    hide Reopen;
    if IsBoundary(rows, n) {
      var i :| 0 <= i <= |rows| && n == |FileOf(rows[..i])|;
      hide FileOf;
      hide AllEncodable;
      assert AllEncodable(s.table) by { TableEncodable(s); }
      PartOfTable(s.table, i);
      PartReopened(s, FileOf(rows[..i]), ToMap(rows[..i]));
    }
  }

  lemma TableEncodable(s: State)
    requires Consistent(s)
    ensures AllEncodable(s.table)
  {
  }

  lemma OthersOpen(s: State, file: seq<Byte>)
    requires Consistent(s)
    ensures CanOpen(s.files[s.next := file], s.wal) <==> Parse(file).Ok?
  {
    assert s.next in s.files[s.next := file];
  }
}
