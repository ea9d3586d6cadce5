/**
 * What the storage engine amounts to: a write-ahead log, a table in memory and a stack of runs on disk,
 * as one state with its transitions and crash points (api/queel/engine.go, api/queel/compaction.go).
 */
module EngineModel {
  import opened Wrappers
  import opened Bytes
  import opened SkipList
  import opened SortedRuns
  import WAL = WriteAheadLog

  /** The data directory, and what a running engine keeps in memory beside it. `runs` is newest first. */
  datatype State = State(
    files: map<nat, seq<Byte>>, wal: seq<Byte>,
    table: map<Key, Cell>, runs: seq<nat>, next: nat)

  // ---- What a state stands for ----

  /** The bindings of one run file. */
  function RunMap(file: seq<Byte>): map<Key, Cell>
  {
    match Parse(file)
    case Ok(rows) => ToMap(rows)
    case Err(_) => map[]
  }

  /** The runs on top of one another, the newest shadowing the others. */
  function Stack(files: map<nat, seq<Byte>>, runs: seq<nat>): map<Key, Cell>
  {
    if runs == [] then map[]
    else Stack(files, runs[1..]) + if runs[0] in files then RunMap(files[runs[0]]) else map[]
  }

  /** The plain key/value map: what is left once tombstones have hidden what they delete. */
  function Visible(m: map<Key, Cell>): map<Key, seq<Byte>>
  {
    map k | k in m && !m[k].tombstone :: m[k].value
  }

  function Logged(wal: seq<Byte>): map<Key, Cell>
  {
    match WAL.Parse(wal)
    case Ok(ops) => WAL.ApplyAll(map[], ops)
    case Err(_) => map[]
  }

  // ---- Ordering file numbers ----

  ghost predicate Descending(runs: seq<nat>)
  {
    forall i, j :: 0 <= i < j < |runs| ==> runs[j] < runs[i]
  }

  /** The numbers in `s`, newest (highest) first, and nothing else. */
  ghost predicate Orders(runs: seq<nat>, s: set<nat>)
  {
    Descending(runs) && s == set n | n in runs
  }

  lemma {:induction false} OrderUnique(a: seq<nat>, b: seq<nat>, s: set<nat>)
    requires Orders(a, s) && Orders(b, s)
    ensures a == b
    decreases |a|
  {
    assert b != [] ==> b[0] in s;
    if a == [] {
      assert b == [];
    } else {
      assert a[0] in s;
      assert b != [];
      assert b[0] in s;
      OrderRest(a, s);
      OrderRest(b, s);
      OrderUnique(a[1..], b[1..], s - {a[0]});
      assert a == [a[0]] + a[1..] && b == [b[0]] + b[1..];
    }
  }

  lemma OrderRest(a: seq<nat>, s: set<nat>)
    requires Orders(a, s) && a != []
    ensures Orders(a[1..], s - {a[0]})
    ensures forall n :: n in s ==> n <= a[0]
  {
    forall n | n in s
      ensures n <= a[0] && (n != a[0] ==> n in a[1..])
    {
      var i :| 0 <= i < |a| && a[i] == n;
      if i > 0 {
        assert a[1..][i - 1] == n;
      }
    }
  }

  lemma PutOnTop(runs: seq<nat>, s: set<nat>, n: nat)
    requires Orders(runs, s) && forall m :: m in s ==> m < n
    ensures Orders([n] + runs, s + {n})
  {
    var runs' := [n] + runs;
    forall j | 0 < j < |runs'|
      ensures runs'[j] < n
    {
      assert runs'[j] == runs[j - 1];
      assert runs[j - 1] in s;
    }
    forall m | m in s + {n}
      ensures m in runs'
    {
      if m in s {
        var i :| 0 <= i < |runs| && runs[i] == m;
        assert runs'[i + 1] == m;
      } else {
        assert runs'[0] == m;
      }
    }
  }

  lemma {:induction false} OrderExists(s: set<nat>) returns (runs: seq<nat>)
    ensures Orders(runs, s)
  {
    if s == {} {
      runs := [];
    } else {
      var top := Highest(s);
      var rest := OrderExists(s - {top});
      runs := [top] + rest;
      PutOnTop(rest, s - {top}, top);
      assert (s - {top}) + {top} == s;
    }
  }

  lemma {:induction false} Highest(s: set<nat>) returns (top: nat)
    requires s != {}
    ensures top in s && forall n :: n in s ==> n <= top
  {
    var first :| first in s;
    top := first;
    if s != {first} {
      assert s - {first} != {};
      var other := Highest(s - {first});
      top := if other > first then other else first;
      assert forall n :: n in s ==> n == first || n in s - {first};
    }
  }

  ghost function Ordered(s: set<nat>): (runs: seq<nat>)
    ensures Orders(runs, s)
  {
    assert exists runs :: Orders(runs, s) by {
      var runs := OrderExists(s);
    }
    var runs :| Orders(runs, s);
    runs
  }

  // ---- The transitions ----

  /** The state an engine starts in on a directory: every run loaded, the log replayed. */
  ghost function Reopen(files: map<nat, seq<Byte>>, wal: seq<Byte>): State
  {
    State(files, wal, Logged(wal), Ordered(files.Keys), |files|)
  }

  ghost function Append(s: State, op: Row): State
  {
    s.(wal := s.wal + WAL.Record(op))
  }

  ghost function Remember(s: State, op: Row): State
  {
    s.(table := s.table[op.key := op.value])
  }

  /** The table is on disk as a new run, but the engine has not moved on to it yet. */
  ghost function WriteRun(s: State): State
  {
    s.(files := s.files[s.next := FileOf(Listing(s.table))])
  }

  ghost function Adopt(s: State): State
  {
    s.(table := map[], runs := [s.next] + s.runs, next := s.next + 1)
  }

  ghost predicate Full(s: State, limit: int)
  {
    TotalSize(Listing(s.table)) >= limit
  }

  /** The bindings of a stack of runs, newest per key, without the tombstones. */
  function Merged(m: map<Key, Cell>): map<Key, Cell>
  {
    map k | k in m && !m[k].tombstone :: m[k]
  }

  /**
   * A completed compaction: one new run is written with what the others held, then the files of the others are
   * removed, by number. If the number was one of theirs, that removes the new file as well.
   */
  ghost function Compacted(s: State): State
  {
    if |s.runs| < 2 then s
    else
      var file := FileOf(Listing(Merged(Stack(s.files, s.runs))));
      s.(files := s.files[s.next := file] - (set n | n in s.runs), runs := [s.next], next := s.next + 1)
  }

  /** Where a write can go wrong: a failed call returns an error, a crash loses what is in memory. */
  datatype Fault = Clean | AppendFailed | CrashAfterAppend | RunFailed | CrashAfterRun | ResetFailed

  datatype Event = Write(op: Row, fault: Fault) | Restart | Compact

  ghost function AfterWrite(s: State, op: Row, fault: Fault, limit: int): State
  {
    if fault == AppendFailed then s else
    var logged := Append(s, op);
    if fault == CrashAfterAppend then Reopen(logged.files, logged.wal) else
    var held := Remember(logged, op);
    if !Full(held, limit) || fault == RunFailed then held else
    var written := WriteRun(held);
    if fault == CrashAfterRun then Reopen(written.files, written.wal) else
    var adopted := Adopt(written);
    if fault == ResetFailed then adopted else adopted.(wal := [])
  }

  ghost function Step(s: State, e: Event, limit: int): State
  {
    match e
    case Write(op, fault) => AfterWrite(s, op, fault, limit)
    case Restart => Reopen(s.files, s.wal)
    case Compact => Compacted(s)
  }

  /** Whether a step puts a new run file on disk. */
  ghost predicate WritesRun(s: State, e: Event, limit: int)
  {
    match e
    case Write(op, fault) =>
      fault != AppendFailed && fault != CrashAfterAppend && fault != RunFailed
      && Full(Remember(Append(s, op), op), limit)
    case Restart => false
    case Compact => |s.runs| >= 2
  }

  /** What the same events do to a plain map. Only a write whose log append failed leaves no trace. */
  function PlainStep(m: map<Key, seq<Byte>>, e: Event): map<Key, seq<Byte>>
  {
    if !e.Write? || e.fault == AppendFailed then m
    else if e.op.value.tombstone then m - {e.op.key}
    else m[e.op.key := e.op.value.value]
  }

  // ---- The invariant ----

  ghost predicate IsRun(file: seq<Byte>)
  {
    Parse(file).Ok? && Ascending(Parse(file).value)
  }

  ghost predicate AllEncodable(m: map<Key, Cell>)
  {
    forall k :: k in m ==> Encodable(KV(k, m[k]))
  }

  ghost function View(s: State): map<Key, seq<Byte>>
  {
    Visible(Stack(s.files, s.runs) + s.table)
  }

  /** Everything on disk is readable and each file loaded once: what a running engine needs to go on running. */
  ghost predicate Sound(s: State)
  {
    && (forall n :: n in s.files ==> IsRun(s.files[n]))
    && (forall i, j :: 0 <= i < j < |s.runs| ==> s.runs[i] != s.runs[j])
    && s.files.Keys == (set n | n in s.runs)
    && WAL.Parse(s.wal).Ok?
    && AllEncodable(s.table) && AllEncodable(Logged(s.wal))
  }

  lemma ConsistentIsSound(s: State)
    requires Consistent(s)
    ensures Sound(s)
  {
    forall i, j | 0 <= i < j < |s.runs|
      ensures s.runs[i] != s.runs[j]
    {
      assert s.runs[j] < s.runs[i];
    }
  }

  /** Everything on disk is readable, and would be recovered as what the running engine shows. */
  ghost predicate Consistent(s: State)
  {
    && (forall n :: n in s.files ==> IsRun(s.files[n]))
    && Orders(s.runs, s.files.Keys)
    && WAL.Parse(s.wal).Ok?
    && AllEncodable(s.table) && AllEncodable(Logged(s.wal))
    && Visible(Stack(s.files, s.runs) + Logged(s.wal)) == View(s)
  }

  /** The next file number is above all others: writing a run replaces none and outranks them all. */
  ghost predicate Fresh(s: State)
  {
    forall n :: n in s.files ==> n < s.next
  }

  // ---- What each transition keeps ----

  lemma LoggedAppend(wal: seq<Byte>, op: Row)
    requires WAL.Parse(wal).Ok? && Encodable(op)
    ensures WAL.Parse(wal + WAL.Record(op)).Ok?
    ensures Logged(wal + WAL.Record(op)) == Logged(wal)[op.key := op.value]
  {
    WAL.ParseAppended(wal, op);
    WAL.ApplyOne(map[], WAL.Parse(wal).value, op);
  }

  lemma OverlayUpdate(a: map<Key, Cell>, b: map<Key, Cell>, k: Key, c: Cell)
    ensures a + b[k := c] == (a + b)[k := c]
  {
  }

  lemma VisibleUpdate(m: map<Key, Cell>, op: Row, fault: Fault)
    requires fault != AppendFailed
    ensures Visible(m[op.key := op.value]) == PlainStep(Visible(m), Write(op, fault))
  {
  }

  /** Replaying writes over runs that already hold them changes nothing that can be seen. */
  lemma ReplayTwice(base: map<Key, Cell>, table: map<Key, Cell>, log: map<Key, Cell>)
    requires Visible(base + log) == Visible(base + table)
    ensures Visible((base + table) + log) == Visible(base + table)
  {
    var l, t, both := base + log, base + table, (base + table) + log;
    forall k | k in both
      ensures k in Visible(both) <==> k in Visible(t)
      ensures k in Visible(both) ==> Visible(both)[k] == Visible(t)[k]
    {
      if k in log {
        assert both[k] == l[k];
        assert k in Visible(l) <==> k in Visible(t);
      } else {
        assert both[k] == t[k];
      }
    }
    forall k | k in Visible(t)
      ensures k in Visible(both)
    {
      assert k in both;
    }
  }

  /** A file written from a table reads back as that table. */
  lemma WrittenRun(m: map<Key, Cell>)
    requires AllEncodable(m)
    ensures IsRun(FileOf(Listing(m))) && RunMap(FileOf(Listing(m))) == m
  {
    var rows := Listing(m);
    forall i | 0 <= i < |rows|
      ensures Encodable(rows[i])
    {
      BindingAt(rows, i);
    }
    ParseFile(rows);
  }

  lemma {:induction false} StackWithout(files: map<nat, seq<Byte>>, runs: seq<nat>, n: nat, file: seq<Byte>)
    requires n !in runs
    ensures Stack(files[n := file], runs) == Stack(files, runs)
  {
    if runs != [] {
      StackWithout(files, runs[1..], n, file);
    }
  }

  /** The new run lies on top of the others and holds the table. */
  lemma RunOnTop(s: State)
    requires Consistent(s) && Fresh(s)
    ensures var s' := WriteRun(s);
            && (forall n :: n in s'.files ==> IsRun(s'.files[n]))
            && Orders([s.next] + s.runs, s'.files.Keys)
            && Stack(s'.files, [s.next] + s.runs) == Stack(s.files, s.runs) + s.table
  {
    hide FileOf;
    hide Listing;
    hide IsRun;
    hide RunMap;
    hide Stack;
    WrittenRun(s.table);
    PutOnTop(s.runs, s.files.Keys, s.next);
    var file := FileOf(Listing(s.table));
    assert s.files[s.next := file].Keys == s.files.Keys + {s.next};
    assert s.next !in s.runs;
    StackUnder(s.files, s.runs, s.next, file);
  }

  /** Reopening the directory of a consistent engine, at any moment, shows what it showed. */
  lemma ReopenKeeps(s: State)
    requires Consistent(s)
    ensures var s' := Reopen(s.files, s.wal); Consistent(s') && View(s') == View(s)
  {
    OrderUnique(s.runs, Ordered(s.files.Keys), s.files.Keys);
  }

  lemma AppendKeeps(s: State, op: Row, fault: Fault)
    requires Consistent(s) && Encodable(op) && fault != AppendFailed
    ensures var s' := Remember(Append(s, op), op);
            && Consistent(s') && View(s') == PlainStep(View(s), Write(op, fault))
            && Visible(Stack(s'.files, s'.runs) + Logged(s'.wal)) == View(s')
  {
    var base := Stack(s.files, s.runs);
    LoggedAppend(s.wal, op);
    OverlayUpdate(base, s.table, op.key, op.value);
    OverlayUpdate(base, Logged(s.wal), op.key, op.value);
    VisibleUpdate(base + s.table, op, fault);
    VisibleUpdate(base + Logged(s.wal), op, fault);
  }

  lemma AppendSound(s: State, op: Row, fault: Fault)
    requires Sound(s) && Encodable(op) && fault != AppendFailed
    ensures var s' := Remember(Append(s, op), op); Sound(s') && View(s') == PlainStep(View(s), Write(op, fault))
  {
    var base := Stack(s.files, s.runs);
    LoggedAppend(s.wal, op);
    OverlayUpdate(base, s.table, op.key, op.value);
    VisibleUpdate(base + s.table, op, fault);
  }

  /** While the engine runs, a flush under any unused number is invisible, also below other runs. */
  lemma RunSound(s: State)
    requires Sound(s) && s.next !in s.files
    ensures Sound(Adopt(WriteRun(s))) && View(Adopt(WriteRun(s))) == View(s)
    ensures Sound(Adopt(WriteRun(s)).(wal := [])) && View(Adopt(WriteRun(s)).(wal := [])) == View(s)
  {
    hide Stack;
    hide Logged;
    hide Visible;
    hide IsRun;
    hide AllEncodable;
    hide FileOf;
    hide Listing;
    RunAbove(s);
    NothingOver(Stack(s.files, s.runs) + s.table);
    EmptyLog();
  }

  /** A run under an unused number is one more file, loaded once, on top of the others in memory. */
  lemma RunAbove(s: State)
    requires Sound(s) && s.next !in s.files
    ensures var s' := WriteRun(s);
            && (forall n :: n in s'.files ==> IsRun(s'.files[n]))
            && (forall i, j :: 0 <= i < j <= |s.runs| ==> ([s.next] + s.runs)[i] != ([s.next] + s.runs)[j])
            && s'.files.Keys == (set n | n in [s.next] + s.runs)
            && Stack(s'.files, [s.next] + s.runs) == Stack(s.files, s.runs) + s.table
  {
    hide FileOf;
    hide Listing;
    hide IsRun;
    hide RunMap;
    hide Stack;
    WrittenRun(s.table);
    NewNumber(s.runs, s.next);
    StackUnder(s.files, s.runs, s.next, FileOf(Listing(s.table)));
  }

  lemma NewNumber(runs: seq<nat>, n: nat)
    requires n !in runs && forall i, j :: 0 <= i < j < |runs| ==> runs[i] != runs[j]
    ensures forall i, j :: 0 <= i < j <= |runs| ==> ([n] + runs)[i] != ([n] + runs)[j]
    ensures (set m | m in [n] + runs) == (set m | m in runs) + {n}
  {
    assert forall i :: 0 < i < |[n] + runs| ==> ([n] + runs)[i] == runs[i - 1] && runs[i - 1] in runs;
  }

  lemma StackUnder(files: map<nat, seq<Byte>>, runs: seq<nat>, n: nat, file: seq<Byte>)
    requires n !in runs
    ensures Stack(files[n := file], [n] + runs) == Stack(files, runs) + RunMap(file)
  {
    StackWithout(files, runs, n, file);
    assert ([n] + runs)[1..] == runs;
  }

  lemma RunKeeps(s: State)
    requires Consistent(s) && Fresh(s)
    ensures Consistent(Adopt(WriteRun(s))) && View(Adopt(WriteRun(s))) == View(s)
    ensures Consistent(Adopt(WriteRun(s)).(wal := [])) && View(Adopt(WriteRun(s)).(wal := [])) == View(s)
  {
    hide Stack;
    hide Logged;
    hide Visible;
    hide Orders;
    hide IsRun;
    hide AllEncodable;
    RunOnTop(s);
    var base := Stack(s.files, s.runs);
    ReplayTwice(base, s.table, Logged(s.wal));
    NothingOver(base + s.table);
    EmptyLog();
  }

  lemma NothingOver(m: map<Key, Cell>)
    ensures m + map[] == m
  {
  }

  lemma EmptyLog()
    ensures WAL.Parse([]).Ok? && Logged([]) == map[] && AllEncodable(map[])
  {
  }
}
