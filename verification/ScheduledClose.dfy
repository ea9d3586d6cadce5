/** The worker that closes rounds whose date has come (`runScheduledCloseWorker` in api/scheduled_close.go). */
module ScheduledClose {
  import opened Wrappers
  import opened Splicing
  import opened Deliberation
  import opened DeliberationSteps
  import opened DeliberationRuns
  import opened SpliceLaws
  import opened Outcomes
  import opened VotingRepository
  import Gossip
  import HashRing

  predicate IsDue(round: Round, now: int)
  {
    round.open && round.closeAt.Some? && round.closeAt.value <= now
  }

  /** The texts whose open round was to close by now. */
  function DueTexts(l: Library, now: int): set<Id>
  {
    set t | t in l.currentRound && l.currentRound[t] in l.rounds && IsDue(l.rounds[l.currentRound[t]], now)
  }

  /** The text has an open round whose date is now or past. */
  ghost predicate HasFallenDue(l: Library, t: Id, now: int)
  {
    exists r, date {:trigger l.rounds[r], Some(date)} ::
      CurrentRound(l, t) == Some(r) && l.rounds[r].open && l.rounds[r].closeAt == Some(date) && date <= now
  }

  lemma DueAre(l: Library, now: int)
    ensures forall t :: t in DueTexts(l, now) <==> HasFallenDue(l, t, now)
  {
    forall t | t in DueTexts(l, now)
      ensures HasFallenDue(l, t, now)
    {
      var r := l.currentRound[t];
      assert CurrentRound(l, t) == Some(r) && l.rounds[r].closeAt == Some(l.rounds[r].closeAt.value);
    }
  }

  /** What the repository lists as due: the text of each such round, once. */
  method DueScheduledRounds(l: Library, now: int) returns (due: seq<Id>)
    requires CurrentOk(l)
    ensures forall t :: t in due <==> t in DueTexts(l, now)
    ensures forall t :: t in due <==> HasFallenDue(l, t, now)
    ensures forall i, j :: 0 <= i < j < |due| ==> due[i] != due[j]
  {
    DueAre(l, now);
    due := [];
    var todo := l.currentRound.Keys;
    while todo != {}
      invariant todo <= l.currentRound.Keys
      invariant forall t :: t in due <==> t in DueTexts(l, now) && t !in todo
      invariant forall i, j :: 0 <= i < j < |due| ==> due[i] != due[j]
    {
      var t :| t in todo;
      var round := l.rounds[l.currentRound[t]];
      if IsDue(round, now) {
        due := due + [round.textId];
      }
      todo := todo - {t};
    }
  }

  /** A due round always can be closed: only rounds with slots are ever scheduled. */
  lemma DueIsClosable(s: Store, t: Id, now: int, d: CloseDraws)
    requires Invariant(s) && t in DueTexts(s.library, now)
    ensures Closable(s, t) && CloseOutcome(s, t, d) == Ok(AfterClose(s, t, d))
  {
    CloseProgress(s, t, d);
    DueHasSlots(s.library, t, now);
    hide AfterClose;
    hide Closable;
    hide Invariant;
  }

  lemma DueHasSlots(l: Library, t: Id, now: int)
    requires PointersOk(l) && CurrentOk(l) && SlotsOk(l) && t in DueTexts(l, now)
    ensures t in l.texts && t !in l.supersededBy && l.rounds[l.currentRound[t]].slots != []
  {
  }

  /** Closing one due round leaves the others due, and makes none: the fork's round has no date yet. */
  lemma OneLessDue(s: Store, t: Id, now: int, d: CloseDraws)
    requires Invariant(s) && Closable(s, t) && FreshPair(s.issued, d.text, d.round)
    ensures DueTexts(AfterClose(s, t, d).library, now) == DueTexts(s.library, now) - {t}
    ensures AfterClose(s, t, d).issued == s.issued + {d.text, d.round}
    ensures t in s.library.currentRound && t in s.library.texts
    ensures AfterClose(s, t, d).library.supersededBy == s.library.supersededBy[t := d.text]
  {
    hide Settled;
    hide SlotsFit;
    hide Decidable;
    ForkedDue(s.library, t, ForkOf(s, t, d), d, now, s.issued);
  }

  lemma ForkedDue(l: Library, t: Id, fork: Text, d: CloseDraws, now: int, issued: set<Id>)
    requires PointersOk(l) && CurrentOk(l) && LibraryIdsOk(l, issued) && FreshPair(issued, d.text, d.round)
    requires t in l.currentRound && l.currentRound[t] in l.rounds
    ensures DueTexts(ForkedLibrary(l, t, fork, d), now) == DueTexts(l, now) - {t}
  {
    var l' := ForkedLibrary(l, t, fork, d);
    forall x
      ensures x in DueTexts(l', now) <==> x in DueTexts(l, now) && x != t
    {
      if x in l.currentRound && x != t && l.currentRound[x] in l.rounds {
        assert l.rounds[l.currentRound[x]].textId == x;
        assert l'.currentRound[x] == l.currentRound[x] && l'.rounds[l.currentRound[x]] == l.rounds[l.currentRound[x]];
      }
    }
  }

  /** Ids for as many closings as may be needed, all new and all different. */
  ghost predicate FreshSupply(issued: set<Id>, ids: nat -> CloseDraws, from: nat)
  {
    && (forall i: nat :: i >= from ==> FreshPair(issued, ids(i).text, ids(i).round))
    && forall i: nat, j: nat :: from <= i < j ==>
         ids(i).text != ids(j).text && ids(i).text != ids(j).round && ids(i).round != ids(j).text
         && ids(i).round != ids(j).round
  }

  // ---- What closing the due rounds one after the other comes to ----

  /** The text is superseded by the version its round settles on. */
  ghost predicate SettledIn(s: Store, s': Store, t: Id)
  {
    && t in s'.library.supersededBy && s'.library.supersededBy[t] in s'.library.texts
    && exists results, now :: IsSettled(s, t, results, s'.library.texts[s'.library.supersededBy[t]], now)
  }

  /** The text and its open round are as they were. */
  ghost predicate Untouched(s: Store, s': Store, t: Id)
  {
    && t in s.library.texts && t in s'.library.texts && s'.library.texts[t] == s.library.texts[t]
    && CurrentRound(s.library, t).Some? && CurrentRound(s'.library, t) == CurrentRound(s.library, t)
    && s'.library.rounds[s'.library.currentRound[t]] == s.library.rounds[s.library.currentRound[t]]
  }

  /** Of the texts that were due the first `i` are settled, and the others still to be closed. */
  ghost predicate Underway(s: Store, s': Store, due: seq<Id>, i: nat)
  {
    && i <= |due| && s'.ballots == s.ballots
    && (forall t :: t in s.library.texts ==> t in s'.library.texts && s'.library.texts[t] == s.library.texts[t])
    && (forall k :: 0 <= k < i ==> SettledIn(s, s', due[k]))
    && forall k :: i <= k < |due| ==> Untouched(s, s', due[k])
  }

  lemma NoneClosed(s: Store, due: seq<Id>, now: int)
    requires PointersOk(s.library) && forall t :: t in due <==> t in DueTexts(s.library, now)
    ensures Underway(s, s, due, 0)
  {
    forall k | 0 <= k < |due|
      ensures Untouched(s, s, due[k])
    {
      assert due[k] in DueTexts(s.library, now);
    }
  }

  lemma SettledAlike(s: Store, s': Store, t: Id, results: seq<SlotResult>, fork: Text, now: int)
    requires Untouched(s, s', t) && s'.ballots == s.ballots && IsSettled(s', t, results, fork, now)
    ensures IsSettled(s, t, results, fork, now)
  {
    hide SlotsSettled;
    hide Replaces;
  }

  /** The other due texts and their rounds are not touched, nor what has been settled. */
  lemma OthersStay(s: Store, s': Store, s'': Store, t: Id, closed: Id, d: CloseDraws, fork: Text)
    requires TakesOver(s', s'', closed, d, fork) && CurrentOk(s'.library) && t != closed
    ensures SettledIn(s, s', t) ==> SettledIn(s, s'', t)
    ensures Untouched(s, s', t) ==> Untouched(s, s'', t)
  {
    hide IsSettled;
    hide OpensRound;
    hide RoundShut;
    if Untouched(s, s', t) {
      var r, closing := s'.library.currentRound[t], s'.library.currentRound[closed];
      assert s'.library.rounds[r].textId == t && s'.library.rounds[closing].textId == closed;
      assert !(t == closed || t == d.text);
      assert CurrentRound(s''.library, t) == CurrentRound(s'.library, t);
    }
  }

  lemma OneMoreClosed(s: Store, s': Store, s'': Store, due: seq<Id>, i: nat, d: CloseDraws, outcome: RoundOutcome)
    requires Underway(s, s', due, i) && i < |due| && CurrentOk(s'.library)
    requires forall x, y :: 0 <= x < y < |due| ==> due[x] != due[y]
    requires RoundClosed(s', s'', due[i], d, outcome)
    ensures Underway(s, s'', due, i + 1)
  {
    SettledAlike(s, s', due[i], outcome.slots, outcome.text, d.forkedAt);
    assert SettledIn(s, s'', due[i]) by {
      hide IsSettled;
      hide OpensRound;
      assert s''.library.supersededBy[due[i]] == d.text && s''.library.texts[d.text] == outcome.text;
    }
    forall k | 0 <= k < |due| && k != i
      ensures SettledIn(s, s', due[k]) ==> SettledIn(s, s'', due[k])
      ensures Untouched(s, s', due[k]) ==> Untouched(s, s'', due[k])
    {
      OthersStay(s, s', s'', due[k], due[i], d, outcome.text);
    }
    BallotsAndTextsStay(s', s'', due[i], d, outcome.text);
    hide SettledIn;
    hide Untouched;
    hide RoundClosed;
  }

  lemma BallotsAndTextsStay(s: Store, s': Store, closed: Id, d: CloseDraws, fork: Text)
    requires TakesOver(s, s', closed, d, fork)
    ensures s'.ballots == s.ballots
    ensures forall t :: t in s.library.texts ==> t in s'.library.texts && s'.library.texts[t] == s.library.texts[t]
  {
    hide OpensRound;
    hide RoundShut;
    hide SameRounds;
  }

  lemma Pointers(s: Store)
    requires Invariant(s)
    ensures PointersOk(s.library) && CurrentOk(s.library)
  {
    hide PointersOk;
    hide CurrentOk;
  }

  /**
   * One tick on a node: nothing unless it leads, otherwise every due round is closed. Afterwards nothing is
   * due any more, and exactly the texts that were due have been superseded.
   */
  method Tick(repo: Repository, membership: Option<Gossip.Membership>, self: HashRing.Node, now: int,
      ids: nat -> CloseDraws)
    returns (leads: bool)
    requires Invariant(repo.store) && FreshSupply(repo.store.issued, ids, 0)
    requires membership.Some? ==> Gossip.Keyed(membership.value.members)
    modifies repo
    ensures Invariant(repo.store)
    ensures leads == (membership.Some? ==> Gossip.Leads(membership.value.members, self))
    ensures !leads ==> repo.store == old(repo.store)
    ensures leads ==> DueTexts(repo.store.library, now) == {}
    ensures leads ==> forall t :: !HasFallenDue(repo.store.library, t, now)
    ensures leads ==> forall t :: HasFallenDue(old(repo.store).library, t, now) ==>
      SettledIn(old(repo.store), repo.store, t)
    ensures repo.store.ballots == old(repo.store).ballots
    ensures forall t :: t in old(repo.store).library.texts ==>
      t in repo.store.library.texts && repo.store.library.texts[t] == old(repo.store).library.texts[t]
    ensures leads ==>
      repo.store.library.supersededBy.Keys
        == old(repo.store.library.supersededBy.Keys) + old(DueTexts(repo.store.library, now))
  {
    leads := true;
    if membership.Some? {
      leads := Gossip.IsScheduledCloseLeader(membership.value, self);
    }
    if !leads {
      return;
    }
    Pointers(repo.store);
    hide Invariant;
    hide DueTexts;
    hide HasFallenDue;
    hide SettledIn;
    hide ClosedSoFar;
    var due := DueScheduledRounds(repo.store.library, now);
    CloseAll(repo, now, due, ids);
    AllClosed(old(repo.store), repo.store, now, due, ids);
  }

  /** Where closing the due rounds stands once the first `i` are closed. */
  ghost predicate ClosedSoFar(s: Store, s': Store, now: int, due: seq<Id>, ids: nat -> CloseDraws, i: nat)
  {
    && Invariant(s') && FreshSupply(s'.issued, ids, i) && Underway(s, s', due, i)
    && DueTexts(s'.library, now) == DueTexts(s.library, now) - FirstOf(due, i)
    && s'.library.supersededBy.Keys == s.library.supersededBy.Keys + FirstOf(due, i)
  }

  /** Each of the due texts, once. */
  ghost predicate ListsDue(s: Store, now: int, due: seq<Id>)
  {
    && (forall t :: t in due <==> t in DueTexts(s.library, now))
    && forall i, j :: 0 <= i < j < |due| ==> due[i] != due[j]
  }

  lemma StartsClosing(s: Store, now: int, due: seq<Id>, ids: nat -> CloseDraws)
    requires Invariant(s) && FreshSupply(s.issued, ids, 0) && ListsDue(s, now, due)
    ensures ClosedSoFar(s, s, now, due, ids, 0)
  {
    hide Invariant;
    hide FreshSupply;
    Pointers(s);
    NoneClosed(s, due, now);
    NoneOf(due);
    hide Underway;
    hide DueTexts;
    hide PointersOk;
    hide CurrentOk;
  }

  /** What has been closed once all of them are. */
  lemma AllClosed(s: Store, s': Store, now: int, due: seq<Id>, ids: nat -> CloseDraws)
    requires ListsDue(s, now, due) && ClosedSoFar(s, s', now, due, ids, |due|)
    ensures Invariant(s') && DueTexts(s'.library, now) == {} && s'.ballots == s.ballots
    ensures s'.library.supersededBy.Keys == s.library.supersededBy.Keys + DueTexts(s.library, now)
    ensures forall t :: t in s.library.texts ==> t in s'.library.texts && s'.library.texts[t] == s.library.texts[t]
    ensures forall t :: HasFallenDue(s.library, t, now) ==> SettledIn(s, s', t)
    ensures forall t :: !HasFallenDue(s'.library, t, now)
  {
    hide Invariant;
    hide FreshSupply;
    hide SettledIn;
    hide Untouched;
    DueAre(s.library, now);
    DueAre(s'.library, now);
    hide HasFallenDue;
    AllOf(due, DueTexts(s.library, now));
    hide DueTexts;
    forall t | HasFallenDue(s.library, t, now)
      ensures SettledIn(s, s', t)
    {
      assert t in due;
      var k :| 0 <= k < |due| && due[k] == t;
    }
  }

  /** Closes the next of the due rounds. */
  method CloseNext(repo: Repository, now: int, due: seq<Id>, i: nat, ids: nat -> CloseDraws, ghost before: Store)
    requires ListsDue(before, now, due) && ClosedSoFar(before, repo.store, now, due, ids, i) && i < |due|
    modifies repo
    ensures ClosedSoFar(before, repo.store, now, due, ids, i + 1)
  {
    hide ListsDue;
    hide ClosedSoFar;
    hide CloseOutcome;
    hide RoundClosed;
    hide ForkOf;
    hide AfterClose;
    hide Closable;
    NextIsDue(before, repo.store, now, due, ids, i);
    var closed := repo.CloseRound(due[i], ids(i));
    OneMore(before, old(repo.store), repo.store, now, due, ids, i, closed.value);
  }

  lemma NextIsDue(s: Store, s': Store, now: int, due: seq<Id>, ids: nat -> CloseDraws, i: nat)
    requires ListsDue(s, now, due) && ClosedSoFar(s, s', now, due, ids, i) && i < |due|
    ensures Invariant(s') && FreshPair(s'.issued, ids(i).text, ids(i).round)
    ensures Closable(s', due[i]) && CloseOutcome(s', due[i], ids(i)) == Ok(AfterClose(s', due[i], ids(i)))
    ensures due[i] in DueTexts(s'.library, now)
  {
    hide Invariant;
    hide Underway;
    hide AfterClose;
    hide Closable;
    hide CloseOutcome;
    hide DueTexts;
    OneMoreOf(due, i);
    hide FirstOf;
    SupplyMore(s'.issued, ids, i);
    hide FreshSupply;
    assert due[i] in due;
    DueIsClosable(s', due[i], now, ids(i));
  }

  lemma OneMore(s: Store, s': Store, s'': Store, now: int, due: seq<Id>, ids: nat -> CloseDraws, i: nat,
      outcome: RoundOutcome)
    requires ListsDue(s, now, due) && ClosedSoFar(s, s', now, due, ids, i) && i < |due|
    requires FreshPair(s'.issued, ids(i).text, ids(i).round) && Closable(s', due[i])
    requires s'' == AfterClose(s', due[i], ids(i)) && Invariant(s'') && RoundClosed(s', s'', due[i], ids(i), outcome)
    ensures ClosedSoFar(s, s'', now, due, ids, i + 1)
  {
    hide Invariant;
    hide Underway;
    hide AfterClose;
    hide Closable;
    hide DueTexts;
    hide RoundClosed;
    OneMoreOf(due, i);
    hide FirstOf;
    SupplyMore(s'.issued, ids, i);
    hide FreshSupply;
    Pointers(s');
    OneLessDue(s', due[i], now, ids(i));
    OneMoreClosed(s, s', s'', due, i, ids(i), outcome);
  }

  method CloseAll(repo: Repository, now: int, due: seq<Id>, ids: nat -> CloseDraws)
    requires Invariant(repo.store) && FreshSupply(repo.store.issued, ids, 0) && ListsDue(repo.store, now, due)
    modifies repo
    ensures ClosedSoFar(old(repo.store), repo.store, now, due, ids, |due|)
  {
    StartsClosing(repo.store, now, due, ids);
    hide Invariant;
    hide ClosedSoFar;
    hide ListsDue;
    for i := 0 to |due|
      invariant ClosedSoFar(old(repo.store), repo.store, now, due, ids, i)
    {
      CloseNext(repo, now, due, i, ids, old(repo.store));
    }
  }

  /** The first so many of the due texts. */
  ghost function FirstOf(due: seq<Id>, i: nat): set<Id>
    requires i <= |due|
  {
    set k | 0 <= k < i :: due[k]
  }

  lemma NoneOf(due: seq<Id>)
    ensures FirstOf(due, 0) == {}
  {
  }

  lemma OneMoreOf(due: seq<Id>, i: nat)
    requires i < |due| && forall x, y :: 0 <= x < y < |due| ==> due[x] != due[y]
    ensures FirstOf(due, i + 1) == FirstOf(due, i) + {due[i]} && due[i] !in FirstOf(due, i)
  {
    assert forall k :: 0 <= k < i ==> due[k] != due[i];
    assert FirstOf(due, i + 1) == FirstOf(due, i) + {due[i]};
  }

  lemma AllOf(due: seq<Id>, all: set<Id>)
    requires forall t :: t in due <==> t in all
    ensures FirstOf(due, |due|) == all
  {
    assert forall k :: 0 <= k < |due| ==> due[k] in due;
  }

  lemma SupplyMore(issued: set<Id>, ids: nat -> CloseDraws, i: nat)
    requires FreshSupply(issued, ids, i)
    ensures FreshPair(issued, ids(i).text, ids(i).round)
    ensures FreshSupply(issued + {ids(i).text, ids(i).round}, ids, i + 1)
  {
  }
}
