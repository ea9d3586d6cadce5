/**
 * A compaction that stops part way through removing the old runs, newest first (api/queel/compaction.go): what a
 * restart then shows, exactly, and why removing them oldest first would always be safe.
 */
module EngineCompaction {
  import opened Bytes
  import opened SkipList
  import opened SortedRuns
  import opened EngineModel
  import opened EngineRuns
  import opened EngineNumbering
  import WAL = WriteAheadLog

  /** The directory when the merged run has been written and, of the old ones, just `left` are still there. */
  ghost function Partly(s: State, left: seq<nat>): map<nat, seq<Byte>>
  {
    (s.files - (set n | n in s.runs && n !in left))[s.next := FileOf(Listing(Merged(Stack(s.files, s.runs))))]
  }

  /** Whatever has been or will be logged, a restart on these files shows what the engine showed. */
  ghost predicate RestartSafe(files: map<nat, seq<Byte>>, s: State)
  {
    forall upper: map<Key, Cell> ::
      Visible(StackOf(files) + upper) == Visible(Stack(s.files, s.runs) + upper)
  }

  lemma SafeShows(files: map<nat, seq<Byte>>, s: State)
    requires RestartSafe(files, s) && Consistent(s)
    ensures View(Reopen(files, s.wal)) == View(s)
  {
    assert Visible(StackOf(files) + Logged(s.wal)) == Visible(Stack(s.files, s.runs) + Logged(s.wal));
  }

  // ---- Stacks and parts of them ----

  lemma {:induction false} StackAgrees(a: map<nat, seq<Byte>>, b: map<nat, seq<Byte>>, runs: seq<nat>)
    requires forall n :: n in runs ==> (n in a <==> n in b) && (n in a ==> a[n] == b[n])
    ensures Stack(a, runs) == Stack(b, runs)
  {
    if runs != [] {
      StackAgrees(a, b, runs[1..]);
    }
  }

  lemma OverlayAssociates(a: map<Key, Cell>, b: map<Key, Cell>, c: map<Key, Cell>)
    ensures (a + b) + c == a + (b + c)
  {
  }

  /** A stack is its older runs with its newer ones over them. */
  lemma {:induction false} StackSplit(files: map<nat, seq<Byte>>, runs: seq<nat>, k: nat)
    requires k <= |runs|
    ensures Stack(files, runs) == Stack(files, runs[k..]) + Stack(files, runs[..k])
  {
    if k == 0 {
      assert runs[k..] == runs && runs[..k] == [];
    } else {
      StackSplit(files, runs[1..], k - 1);
      assert runs[1..][k - 1..] == runs[k..] && runs[1..][..k - 1] == runs[..k][1..];
      var top := if runs[0] in files then RunMap(files[runs[0]]) else map[];
      OverlayAssociates(Stack(files, runs[k..]), Stack(files, runs[..k][1..]), top);
    }
  }

  lemma PartOrders(runs: seq<nat>, i: nat, j: nat)
    requires Descending(runs) && i <= j <= |runs|
    ensures Descending(runs[i..j])
  {
  }

  /** Reopened, the merged run lies on top of the old ones that are left. */
  lemma PartlyStack(s: State, left: seq<nat>)
    requires Consistent(s) && Fresh(s) && Descending(left) && forall n :: n in left ==> n in s.runs
    ensures StackOf(Partly(s, left)) == Stack(s.files, left) + Merged(Stack(s.files, s.runs))
  {
    hide IsRun;
    hide RunMap;
    hide FileOf;
    hide Listing;
    hide Stack;
    hide Merged;
    hide View;
    hide Logged;
    var base, files := Stack(s.files, s.runs), Partly(s, left);
    StackEncodable(s.files, s.runs);
    MergedEncodable(base);
    WrittenRun(Merged(base));
    var kept := set n | n in left;
    assert forall n :: n in left ==> n in s.files;
    assert files.Keys == kept + {s.next};
    PutOnTop(left, kept, s.next);
    OrderUnique(Ordered(files.Keys), [s.next] + left, files.Keys);
    var rest, file := s.files - (set n | n in s.runs && n !in left), FileOf(Listing(Merged(base)));
    assert files == rest[s.next := file];
    StackUnder(rest, left, s.next, file);
    assert StackOf(files) == Stack(rest, left) + RunMap(file);
    StackAgrees(rest, s.files, left);
  }

  /** What is left is harmless exactly if it has no value for a key that the stack as a whole deletes. */
  lemma HarmlessExactly(left: map<Key, Cell>, base: map<Key, Cell>)
    requires left.Keys <= base.Keys
    ensures (forall upper: map<Key, Cell> :: Visible((left + Merged(base)) + upper) == Visible(base + upper)) <==>
      forall k :: k in base && base[k].tombstone ==> k !in Visible(left)
  {
    if forall k :: k in base && base[k].tombstone ==> k !in Visible(left) {
      forall upper: map<Key, Cell>
        ensures Visible((left + Merged(base)) + upper) == Visible(base + upper)
      {
        HarmlessUnder(left, base, upper);
      }
    }
    if forall upper: map<Key, Cell> :: Visible((left + Merged(base)) + upper) == Visible(base + upper) {
      var none: map<Key, Cell> := map[];
      assert Visible((left + Merged(base)) + none) == Visible(base + none);
      NothingOver(left + Merged(base));
      NothingOver(base);
      forall k | k in base && base[k].tombstone
        ensures k !in Visible(left)
      {
        assert k !in Visible(left + Merged(base));
      }
    }
  }

  lemma HarmlessUnder(left: map<Key, Cell>, base: map<Key, Cell>, upper: map<Key, Cell>)
    requires left.Keys <= base.Keys
    requires forall k :: k in base && base[k].tombstone ==> k !in Visible(left)
    ensures Visible((left + Merged(base)) + upper) == Visible(base + upper)
  {
    var a, b := (left + Merged(base)) + upper, base + upper;
    forall k
      ensures k in Visible(a) <==> k in Visible(b)
      ensures k in Visible(a) ==> Visible(a)[k] == Visible(b)[k]
    {
      if k !in upper && k in base && base[k].tombstone {
        assert k !in Visible(left);
      }
    }
  }

  // ---- Where a compaction can stop ----

  /**
   * The old runs are removed newest first. Stopping when `gone` of them are removed is safe exactly if no key that
   * the engine holds deleted has a value in the runs that are left: the tombstone is no longer anywhere.
   */
  lemma InterruptionSafeExactlyWhen(s: State, gone: nat)
    requires Consistent(s) && Fresh(s) && gone <= |s.runs|
    ensures RestartSafe(Partly(s, s.runs[gone..]), s) <==>
      forall k :: k in Stack(s.files, s.runs) && Stack(s.files, s.runs)[k].tombstone ==>
        k !in Visible(Stack(s.files, s.runs[gone..]))
  {
    var left := s.runs[gone..];
    PartOrders(s.runs, gone, |s.runs|);
    PartlyStack(s, left);
    StackSplit(s.files, s.runs, gone);
    HarmlessExactly(Stack(s.files, left), Stack(s.files, s.runs));
  }

  /** Before the first removal and after the last it always is. */
  lemma UninterruptedIsSafe(s: State)
    requires Consistent(s) && Fresh(s)
    ensures RestartSafe(Partly(s, s.runs), s) && RestartSafe(Partly(s, []), s)
  {
    InterruptionSafeExactlyWhen(s, 0);
    assert s.runs[0..] == s.runs;
    InterruptionSafeExactlyWhen(s, |s.runs|);
    assert s.runs[|s.runs|..] == [];
  }

  /** Removing the old runs oldest first would be safe wherever it stopped: a tombstone outlives what it hides. */
  lemma OldestFirstIsSafe(s: State, kept: nat)
    requires Consistent(s) && Fresh(s) && kept <= |s.runs|
    ensures RestartSafe(Partly(s, s.runs[..kept]), s)
  {
    var left := s.runs[..kept];
    PartOrders(s.runs, 0, kept);
    PartlyStack(s, left);
    StackSplit(s.files, s.runs, kept);
    HarmlessExactly(Stack(s.files, left), Stack(s.files, s.runs));
  }

  // ---- A deleted key that comes back ----

  const DELETED: map<Key, Cell> := map[A := Cell([], true)]

  /** A value in run 0, its deletion in run 1. */
  ghost const TWO_RUNS := State(
    map[0 := FileOf(Listing(One(A, 1))), 1 := FileOf(Listing(DELETED))], [], map[], [1, 0], 2)

  lemma TwoRunsHold()
    ensures Consistent(TWO_RUNS) && Fresh(TWO_RUNS)
    ensures Stack(TWO_RUNS.files, [1, 0]) == One(A, 1) + DELETED && Stack(TWO_RUNS.files, [0]) == One(A, 1)
  {
    hide IsRun;
    hide RunMap;
    hide FileOf;
    hide Listing;
    WrittenRun(One(A, 1));
    WrittenRun(DELETED);
    EmptyLog();
    TwoRuns(FileOf(Listing(One(A, 1))), FileOf(Listing(DELETED)));
    assert TWO_RUNS.files.Keys == {0, 1} == set n | n in [1, 0];
    assert [0][1..] == [];
    assert Stack(TWO_RUNS.files, [0]) == map[] + One(A, 1);
    assert map[] + One(A, 1) == One(A, 1);
  }

  /** Stopping between the two removals, and restarting, shows the deleted key again. */
  lemma InterruptionRevivesDeleted()
    ensures Consistent(TWO_RUNS) && A !in View(TWO_RUNS)
    ensures var s := Reopen(Partly(TWO_RUNS, [0]), TWO_RUNS.wal); A in View(s) && View(s)[A] == [1]
  {
    hide FileOf;
    hide Listing;
    hide Stack;
    TwoRunsHold();
    PartlyStack(TWO_RUNS, [0]);
    EmptyLog();
    NothingOver(StackOf(Partly(TWO_RUNS, [0])));
    NothingOver(Stack(TWO_RUNS.files, [1, 0]));
  }
}
