/** The repository as it runs (api/queel/repository.go), and the worker that closes rounds when they fall due. */
module VotingRepository {
  import opened Wrappers
  import opened Bytes
  import opened Splicing
  import opened Deliberation
  import opened DeliberationSteps
  import opened DeliberationRuns
  import opened Scans
  import opened Outcomes
  import Versions
  import Labels

  class Repository {
    var store: Store

    constructor ()
      ensures store == EMPTY && Invariant(store)
    {
      store := EMPTY;
      EmptyOk();
    }

    /** The text, its first round, its author's subscription and its labels, in one batch. */
    method CreateText(id: Id, roundId: Id, title: string, content: string, author: Id, tags: seq<Tag>,
        now: int, openedAt: int)
      requires Invariant(store) && FreshPair(store.issued, id, roundId)
      modifies this
      ensures store == AfterCreateText(old(store), id, roundId, title, content, author, tags, now, openedAt)
      ensures TextCreated(old(store), store, id, roundId, title, content, author, tags, now, openedAt)
      ensures Invariant(store)
    {
      hide Invariant;
      hide TextCreated;
      CreateKeeps(store, id, roundId, title, content, author, tags, now, openedAt);
      CreatesText(store, id, roundId, title, content, author, tags, now, openedAt);
      hide Following;
      hide WithRound;
      hide WithText;
      hide TagEntries;
      var tagIndex := AddTags(store.tagIndex, tags, id);
      var l := WithRound(WithText(store.library, id, Text(title, content, tags, false, now, None, author)), id,
        roundId, 1, openedAt);
      store := Store(l, store.ballots, Following(store.follows, author, id, now), tagIndex,
        store.issued + {id, roundId});
    }

    /** Puts a proposal for a range, opening and seeding a slot for it where there is none; a batch may fail. */
    method ProposeEdit(textId: Id, start: int, end: int, content: string, author: Id, d: Draws, batches: nat)
      returns (r: Result<Id, RepositoryError>)
      requires Invariant(store) && FreshDraws(store, d)
      modifies this
      ensures store == ProposalLeaves(old(store), textId, start, end, content, author, d, batches)
      ensures Invariant(store)
      ensures r.Ok? ==> AfterProposal(old(store), textId, start, end, content, author, d) == Ok(store)
      ensures r.Err? && r.error != StoreFailed ==>
        AfterProposal(old(store), textId, start, end, content, author, d) == Err(r.error) && store == old(store)
      ensures ProposalMeans(old(store), store, textId, start, end, content, author, d, batches, r)
    {
      hide Invariant;
      hide EditProposed;
      hide Refusal;
      hide ResolveSlot;
      RefusalIs(store, textId, start, end);
      ProposalLeavesKeeps(store, textId, start, end, content, author, d, batches);
      if textId !in store.library.texts {
        return Err(NotFound);
      }
      var text := store.library.texts[textId];
      if start < 0 || end <= start || end > |text.content| {
        return Err(InvalidRange);
      }
      NeverReopens(store, textId, d);
      if textId in store.library.supersededBy {
        return Err(TextSuperseded(store.library.supersededBy[textId]));
      }
      OpenRoundIs(store, textId);
      ProposalIs(store, textId, start, end, content, author, d);
      LeavesIs(store, textId, start, end, content, author, d, batches);
      hide ProposalLeaves;
      hide AfterProposal;
      hide RoundOpened;
      hide NewSlot;
      hide FragmentAdded;
      var roundId := store.library.currentRound[textId];
      var resolved := ResolveSlotIn(store.library.rounds[roundId].slots, start, end);
      match resolved
      case Err(e) =>
        return Err(e);
      case Ok(Some(slotId)) =>
        if batches < 2 {
          return Err(StoreFailed);
        }
        ProposesInSlot(store, textId, start, end, content, author, d, slotId);
        store := FragmentAdded(store, d.fragment, Fragment(textId, slotId, content, author, d.addedAt));
        return Ok(d.fragment);
      case Ok(None) =>
        if batches < 1 {
          return Err(StoreFailed);
        }
        ProposesInNewSlot(store, textId, start, end, content, author, d);
        store := NewSlot(store, textId, roundId, start, end, d);
        if batches < 2 {
          return Err(StoreFailed);
        }
        store := FragmentAdded(store, d.fragment, Fragment(textId, d.slot, content, author, d.addedAt));
        return Ok(d.fragment);
    }

    /** Votes for a fragment, withdrawing any other vote of the user in the same slot. */
    method CastVote(fragmentId: Id, user: Id, now: int) returns (ok: bool)
      requires Invariant(store)
      modifies this
      ensures store == OrElse(AfterVote(old(store), fragmentId, user, now), old(store)) && Invariant(store)
      ensures ok == (fragmentId in old(store).ballots.fragments)
      ensures ok ==> user in Voters(store.ballots, fragmentId)
      ensures ok ==> VoteCast(old(store).ballots, store.ballots, fragmentId, user, now)
      ensures store == old(store).(ballots := store.ballots) && (!ok ==> store == old(store))
    {
      VotesKeep(store, fragmentId, user, now);
      VotesInStep(store);
      hide Invariant;
      hide VoteCast;
      if fragmentId !in store.ballots.fragments {
        return false;
      }
      CastsVote(store.ballots, fragmentId, user, now);
      var ballots := RecordVote(store.ballots, fragmentId, user, now);
      hide WithVote;
      store := store.(ballots := ballots);
      return true;
    }

    method ScheduleRoundClose(textId: Id, closeAt: int, user: Id) returns (r: Result<Id, RepositoryError>)
      requires Invariant(store)
      modifies this
      ensures store == OrElse(AfterSchedule(old(store), textId, closeAt, user), old(store)) && Invariant(store)
      ensures r.Err? ==> AfterSchedule(old(store), textId, closeAt, user) == Err(r.error)
      ensures r.Ok? <==> AfterSchedule(old(store), textId, closeAt, user).Ok?
      ensures r.Ok? <==>
        CurrentRound(old(store).library, textId).Some? && OpenSlots(old(store).library, textId) != []
      ensures r.Ok? ==> CloseDated(old(store).library, store.library, textId, closeAt, user, r.value)
      ensures store == old(store).(library := store.library)
      ensures r.Err? ==> store == old(store)
      ensures r.Err? ==>
        r.error == if CurrentRound(store.library, textId).None? then NoOpenRound else EmptyRound
    {
      ScheduleKeeps(store, textId, closeAt, user);
      hide Invariant;
      if CurrentRound(store.library, textId).None? {
        return Err(NoOpenRound);
      }
      var id := store.library.currentRound[textId];
      var round := store.library.rounds[id];
      if |round.slots| == 0 {
        return Err(EmptyRound);
      }
      DatesClose(store.library, textId, closeAt, user);
      hide CloseDated;
      var scheduled := round.(closeAt := Some(closeAt), closeBy := Some(user));
      store := store.(library := store.library.(rounds := store.library.rounds[id := scheduled]));
      return Ok(id);
    }

    /**
     * Settles every slot on its winner, forks the text, and moves its labels and subscribers to the fork. On a
     * text that exists and is not superseded it fails only if nothing was proposed.
     */
    method CloseRound(textId: Id, d: CloseDraws) returns (r: Result<RoundOutcome, RepositoryError>)
      requires Invariant(store) && FreshPair(store.issued, d.text, d.round)
      modifies this
      ensures store == OrElse(CloseOutcome(old(store), textId, d), old(store)) && Invariant(store)
      ensures r.Ok? <==> Closable(old(store), textId)
      ensures r.Ok? <==>
        CurrentRound(old(store).library, textId).Some? && OpenSlots(old(store).library, textId) != []
      ensures r.Ok? ==> RoundClosed(old(store), store, textId, d, r.value)
      ensures r.Err? ==> store == old(store)
      ensures r.Ok? ==> r.value.textId == d.text && r.value.text == ForkOf(old(store), textId, d)
      ensures r.Err? ==> r.error == EmptyRound || r.error == NoOpenRound
      ensures r.Err? && r.error == EmptyRound ==>
        textId in old(store).library.currentRound && textId in old(store).library.texts
    {
      hide Invariant;
      hide Closable;
      hide AfterClose;
      hide ForkOf;
      hide RoundClosed;
      CloseProgress(store, textId, d);
      CloseOutcomeKeeps(store, textId, d);
      if CurrentRound(store.library, textId).None? {
        return Err(NoOpenRound);
      }
      var closing := store.library.currentRound[textId];
      var round := store.library.rounds[closing];
      if |round.slots| == 0 {
        return Err(EmptyRound);
      }
      assert Closable(store, textId);
      hide CloseOutcome;
      hide Settled;
      hide SlotsSettled;
      hide MovedFollowers;
      hide TagEntries;
      hide ForkedLibrary;
      ReadyToFork(store, textId, d);
      var text := store.library.texts[textId];
      var content, results := Settle(textId);
      Closes(store, textId, results, d);
      var fork := Text(text.title, content, text.tags, true, d.forkedAt, Some(textId), text.createdBy);
      ForkIs(store, textId, d);
      var follows := MoveFollowers(store.follows, textId, d.text, d.closedAt);
      var tagIndex := MoveTags(store.tagIndex, text.tags, textId, d.text);
      ClosedIs(store, textId, d);
      store := Store(ForkedLibrary(store.library, textId, fork, d), store.ballots, follows, tagIndex,
        store.issued + {d.text, d.round});
      return Ok(RoundOutcome(d.text, fork, results));
    }

    /** The winner of every open slot, spliced into the text. */
    method Settle(textId: Id) returns (content: string, results: seq<SlotResult>)
      requires Invariant(store) && Closable(store, textId)
      ensures content == Settled(store, textId)
      ensures SlotsSettled(store.ballots, textId, OpenSlots(store.library, textId), results)
    {
      hide Invariant;
      hide Wins;
      hide Winner;
      ReadyToClose(store, textId);
      var text := store.library.texts[textId];
      var slots := store.library.rounds[store.library.currentRound[textId]].slots;
      var found := FindWinners(store.ballots, store.library.texts.Keys, textId, slots);
      results := found.value.1;
      hide SlotsFit;
      hide Winners;
      content := SpliceContent(text.content, slots, found.value.0);
    }

    method Subscribe(user: Id, textId: Id, now: int) returns (ok: bool)
      requires Invariant(store)
      modifies this
      ensures store == OrElse(AfterSubscribe(old(store), user, textId, now), old(store)) && Invariant(store)
      ensures ok == (textId in old(store).library.texts)
      ensures store == old(store).(follows := store.follows) && (!ok ==> store == old(store))
      ensures ok ==> (textId, user) in store.follows.subs && store.follows.subs[(textId, user)] == now
      ensures ok ==> OnlyThisPair(old(store).follows, store.follows, user, textId)
    {
      FollowsKeep(store, user, textId, now);
      OnePairChanges(store.follows, user, textId, now);
      hide Invariant;
      hide OnlyThisPair;
      if textId !in store.library.texts {
        return false;
      }
      store := store.(follows := Follows(store.follows.subs[(textId, user) := now],
        store.follows.index + {(user, textId)}));
      return true;
    }

    method Unsubscribe(user: Id, textId: Id)
      requires Invariant(store)
      modifies this
      ensures store == AfterUnsubscribe(old(store), user, textId) && Invariant(store)
      ensures store == old(store).(follows := store.follows) && (textId, user) !in store.follows.subs
      ensures OnlyThisPair(old(store).follows, store.follows, user, textId)
    {
      FollowsKeep(store, user, textId, 0);
      OnePairChanges(store.follows, user, textId, 0);
      hide Invariant;
      hide OnlyThisPair;
      store := store.(follows := Follows(store.follows.subs - {(textId, user)},
        store.follows.index - {(user, textId)}));
    }

    method DeleteUserSubscriptions(user: Id)
      requires Invariant(store)
      modifies this
      ensures store == AfterDeleteUserSubscriptions(old(store), user) && Invariant(store)
      ensures store == old(store).(follows := store.follows)
      ensures Loses(old(store).follows.subs, store.follows.subs, ByUser(user))
    {
      FollowsKeep(store, user, user, 0);
      FollowsMirror(store);
      hide Invariant;
      ForgetsFollower(store.follows, user);
      var follows := DropFollower(store.follows, user);
      store := store.(follows := follows);
    }

    method DeleteUserVotes(user: Id)
      requires Invariant(store)
      modifies this
      ensures store == AfterDeleteUserVotes(old(store), user) && Invariant(store)
      ensures store == old(store).(ballots := store.ballots)
      ensures VotesDropped(old(store).ballots, store.ballots, user)
    {
      VotesKeep(store, user, user, 0);
      DropsVotes(store.ballots, user);
      hide Invariant;
      hide VotesDropped;
      var ballots := DropVoter(store.ballots, user);
      store := store.(ballots := ballots);
    }

    method DeleteUserFragments(user: Id)
      requires Invariant(store) && user != SEED
      modifies this
      ensures store == AfterDeleteUserFragments(old(store), user) && Invariant(store)
      ensures store == old(store).(ballots := store.ballots)
      ensures FragmentsDropped(old(store).ballots, store.ballots, AuthorIs(old(store).ballots, user))
    {
      DeleteUserFragmentsKeeps(store, user);
      DropsFragmentsBy(store.ballots, user);
      hide FragmentsDropped;
      var ballots := DropFragmentsBy(store.ballots, store.library.texts.Keys, user);
      hide Invariant;
      store := store.(ballots := ballots);
    }

    method DeleteUserTexts(user: Id) returns (deleted: set<Id>)
      requires Invariant(store)
      modifies this
      ensures store == AfterDeleteUserTexts(old(store), user) && Invariant(store)
      ensures deleted == TextsBy(old(store).library, user)
      ensures forall t :: t in deleted <==>
        t in old(store).library.texts && old(store).library.texts[t].createdBy == user
      ensures TextsDropped(old(store), store, Among(deleted))
      ensures store.follows == old(store).follows && store.tagIndex == old(store).tagIndex
    {
      DeleteUserTextsKeeps(store, user);
      DropsTexts(store, TextsBy(store.library, user));
      hide Invariant;
      hide TextsDropped;
      deleted := FindTextsBy(store.library, user);
      var library := DropTexts(store.library, deleted);
      var ballots := DropBallotsOn(store.ballots, deleted);
      store := store.(library := library, ballots := ballots);
    }

    method DeleteText(textId: Id) returns (ok: bool)
      requires Invariant(store)
      modifies this
      ensures store == OrElse(AfterDeleteText(old(store), textId), old(store)) && Invariant(store)
      ensures ok == (textId in old(store).library.texts)
      ensures !ok ==> store == old(store)
      ensures ok ==> TextDeleted(old(store), store, textId)
    {
      DeleteTextKeeps(store, textId);
      hide Invariant;
      hide TextDeleted;
      if textId !in store.library.texts {
        return false;
      }
      DeletesText(store, textId);
      var library := DropTexts(store.library, {textId});
      var ballots := DropBallotsOn(store.ballots, {textId});
      var follows := DropFollowed(store.follows, textId);
      var tagIndex := store.tagIndex - TagEntries(store.library.texts[textId].tags, textId);
      store := Store(library, ballots, follows, tagIndex, store.issued);
      return true;
    }

    // ---- Listings ----

    /** Who follows a text, and whom a user follows, are two views of one relation. */
    method SubscribersForText(textId: Id) returns (users: set<Id>)
      requires Invariant(store)
      ensures forall u :: u in users <==> (u, textId) in store.follows.index
    {
      SubscribersAre(store.follows, textId);
      users := Subscribers(store.follows, textId);
    }

    method SubscriptionsForUser(user: Id) returns (texts: set<Id>)
      requires Invariant(store)
      ensures forall t :: t in texts <==> user in Subscribers(store.follows, t)
    {
      texts := set e | e in store.follows.index && e.0 == user :: e.1;
      forall t
        ensures t in texts <==> (user, t) in store.follows.index
      {
        if (user, t) in store.follows.index {
          assert (user, t).0 == user && (user, t).1 == t;
        }
      }
      forall t
        ensures user in Subscribers(store.follows, t) <==> (t, user) in store.follows.subs
      {
        SubscribersAre(store.follows, t);
      }
    }

    /** All versions of a text that survive and are linked to it, from whichever of them it is asked. */
    method TextChain(textId: Id) returns (r: Result<seq<Id>, RepositoryError>)
      requires Invariant(store)
      ensures r.Ok? <==> textId in store.library.texts
      ensures r.Ok? ==> Versions.WholeChain(store.library, r.value) && textId in r.value
      ensures r.Ok? ==> forall chain :: Versions.WholeChain(store.library, chain) && textId in chain ==>
        chain == r.value
    {
      r := Versions.TextChain(store.library, textId);
    }

    /**
     * For labels in use and texts created at different times: the listing of recent texts, narrowed, exactly if the
     * scan for the first label meets no other label.
     */
    method TextsByTags(tags: seq<Tag>, fold: Tag -> Tag) returns (r: seq<Labels.Listed>)
      requires Invariant(store)
      ensures tags == [] ==> r == []
      ensures
        (&& tags != [] && (forall i :: 0 <= i < |tags| ==> Labels.Under(store.tagIndex, tags[i]) != {})
         && Labels.DistinctTimes(store.library, Labels.CurrentTexts(store.library)))
        ==> forall recent :: Labels.ListsCurrent(recent, store.library) ==>
              (r == Labels.Narrowed(recent, tags) <==>
                forall e :: e in Labels.Hits(store.library, store.tagIndex, tags) ==> e.0 == tags[0])
    {
      var resolved;
      r, resolved := Labels.TextsByTags(store.library, store.tagIndex, tags, fold);
      if tags != [] && resolved == tags && Labels.DistinctTimes(store.library, Labels.CurrentTexts(store.library)) {
        forall recent | Labels.ListsCurrent(recent, store.library)
          ensures r == Labels.Narrowed(recent, tags) <==>
            forall e :: e in Labels.Hits(store.library, store.tagIndex, tags) ==> e.0 == tags[0]
        {
          Labels.ByTagsIsNarrowing(recent, r, store.library, store.tagIndex, tags);
        }
      }
    }
  }

  lemma ReadyToClose(s: Store, textId: Id)
    requires Invariant(s) && Closable(s, textId)
    ensures textId in s.library.texts && FragmentsOk(s.library.texts.Keys, s.ballots)
    ensures var slots := OpenSlots(s.library, textId);
            && SlotsFit(slots, |s.library.texts[textId].content|) && Decidable(s.ballots, textId, slots)
            && forall i, j :: 0 <= i < j < |slots| ==> slots[i].id != slots[j].id
  {
    hide LibraryOk;
    hide ListingsOk;
    hide FragmentsOk;
    hide Decidable;
  }

  lemma ReadyToFork(s: Store, textId: Id, d: CloseDraws)
    requires Invariant(s) && Closable(s, textId) && FreshPair(s.issued, d.text, d.round)
    ensures textId in s.library.texts && textId != d.text
    ensures CloseOutcome(s, textId, d) == Ok(AfterClose(s, textId, d))
  {
    hide BallotsOk;
    hide ListingsOk;
    hide AfterClose;
    hide SlotsFit;
    hide Decidable;
    hide SlotsOk;
    hide RoundsOk;
    hide ChainOk;
    CloseProgress(s, textId, d);
  }

  lemma ForkIs(s: Store, textId: Id, d: CloseDraws)
    requires Closable(s, textId)
    ensures var text := s.library.texts[textId];
            ForkOf(s, textId, d)
              == Text(text.title, Settled(s, textId), text.tags, true, d.forkedAt, Some(textId), text.createdBy)
  {
    hide Settled;
  }

  lemma VotesInStep(s: Store)
    requires Invariant(s)
    ensures VotesOk(s.ballots)
  {
    hide VotesOk;
  }

  lemma FollowsMirror(s: Store)
    requires Invariant(s)
    ensures FollowsOk(s.follows)
  {
    hide FollowsOk;
  }

  lemma ClosedIs(s: Store, textId: Id, d: CloseDraws)
    requires Closable(s, textId)
    ensures var fork := ForkOf(s, textId, d);
            AfterClose(s, textId, d) == Store(ForkedLibrary(s.library, textId, fork, d), s.ballots,
              MovedFollowers(s.follows, textId, d.text, d.closedAt),
              s.tagIndex - TagEntries(fork.tags, textId) + TagEntries(fork.tags, d.text), s.issued + {d.text, d.round})
  {
  }
}
