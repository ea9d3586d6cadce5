/** Whole runs of the repository: the store they reach always satisfies the invariant, and what follows from it. */
module DeliberationRuns {
  import opened Wrappers
  import opened Bytes
  import opened Splicing
  import opened Deliberation
  import opened DeliberationSteps

  // ---- Operations keep the invariant ----

  lemma CreateBallots(l: Library, b: Ballots, id: Id, text: Text, roundId: Id, openedAt: int, issued: set<Id>)
    requires LibraryOk(l, issued) && BallotsOk(l, b, issued) && FreshPair(issued, id, roundId)
    ensures BallotsOk(NewText(l, id, text, roundId, 1, openedAt), b, issued + {id, roundId})
  {
    hide PointersOk;
    hide CurrentOk;
    hide RoundIndexOk;
    hide SlotsOk;
    hide ChainOk;
    hide VotesOk;
    hide SeedsOk;
    hide FragmentsOk;
    CarriedToNewText(l, b, NewText(l, id, text, roundId, 1, openedAt), id);
  }

  lemma CreateListings(l: Library, f: Follows, tagIndex: set<(Tag, Id)>, id: Id, text: Text, roundId: Id,
      author: Id, now: int,
      openedAt: int, issued: set<Id>)
    requires LibraryOk(l, issued) && ListingsOk(l, f, tagIndex, issued) && FreshPair(issued, id, roundId)
    ensures ListingsOk(NewText(l, id, text, roundId, 1, openedAt), Following(f, author, id, now),
      tagIndex + TagEntries(text.tags, id), issued + {id, roundId})
  {
    NewTextTags(l, id, text, roundId, 1, openedAt, tagIndex, f, issued);
    FollowingKeeps(f, author, id, now);
    NewListingIds(f, Following(f, author, id, now), tagIndex, tagIndex + TagEntries(text.tags, id), issued,
      issued + {id, roundId});
    hide TagsOk;
    hide FollowsOk;
    hide OtherIdsOk;
  }

  lemma CreateKeeps(s: Store, id: Id, roundId: Id, title: string, content: string, author: Id, tags: seq<Tag>,
      now: int, openedAt: int)
    requires Invariant(s) && FreshPair(s.issued, id, roundId)
    ensures Invariant(AfterCreateText(s, id, roundId, title, content, author, tags, now, openedAt))
  {
    hide LibraryOk;
    hide BallotsOk;
    hide ListingsOk;
    var text := Text(title, content, tags, false, now, None, author);
    NewTextLibrary(s.library, id, text, roundId, 1, openedAt, s.issued);
    CreateBallots(s.library, s.ballots, id, text, roundId, openedAt, s.issued);
    CreateListings(s.library, s.follows, s.tagIndex, id, text, roundId, author, now, openedAt, s.issued);
  }

  /** A new text leaves slots, seeds and fragments where they are. */
  lemma CarriedToNewText(l: Library, b: Ballots, l': Library, id: Id)
    requires SeedsOk(l, b) && FragmentsOk(l.texts.Keys, b)
    requires id !in l.texts && l'.texts.Keys == l.texts.Keys + {id}
    requires forall t :: t in l.texts ==> l'.texts[t] == l.texts[t]
    requires forall r :: r in l.rounds ==> l.rounds[r].textId in l.texts
    requires forall r :: r in l'.rounds && l'.rounds[r].slots != [] ==>
      r in l.rounds && l'.rounds[r].slots == l.rounds[r].slots && l'.rounds[r].textId == l.rounds[r].textId
    ensures SeedsOk(l', b) && FragmentsOk(l'.texts.Keys, b)
  {
    SeedsCarried(l, b, l', b);
  }

  lemma NewListingIds(f: Follows, f': Follows, tagIndex: set<(Tag, Id)>, tagIndex': set<(Tag, Id)>,
      issued: set<Id>, more: set<Id>)
    requires OtherIdsOk(f, tagIndex, issued) && issued <= more
    requires forall e :: e in tagIndex' ==> e in tagIndex || e.1 in more
    requires forall k :: k in f'.subs ==> k in f.subs || k.0 in more
    ensures OtherIdsOk(f', tagIndex', more)
  {
  }

  /** On a text that is still there and not superseded a proposal never has to open a round. */
  lemma NeverReopens(s: Store, textId: Id, d: Draws)
    requires Invariant(s) && textId in s.library.texts
    ensures RoundOpened(s, textId, d) ==
      if textId in s.library.supersededBy then Err(TextSuperseded(s.library.supersededBy[textId])) else Ok(s)
  {
  }

  predicate OpensSlot(s: Store, textId: Id, roundId: Id, start: nat, end: nat, d: Draws)
  {
    && FreshDraws(s, d) && textId in s.library.texts && roundId in s.library.rounds
    && s.library.rounds[roundId].textId == textId && start < end <= |s.library.texts[textId].content|
    && ResolveSlot(s.library.rounds[roundId].slots, start, end) == Ok(None)
  }

  lemma NewSlotLibrary(s: Store, textId: Id, roundId: Id, start: nat, end: nat, d: Draws)
    requires LibraryOk(s.library, s.issued) && OpensSlot(s, textId, roundId, start, end, d)
    ensures LibraryOk(NewSlot(s, textId, roundId, start, end, d).library, s.issued + {d.slot, d.seed})
  {
    hide PointersOk;
    hide CurrentOk;
    hide RoundsOk;
    hide RoundIndexOk;
    hide ChainOk;
    hide SlotsFit;
    var round := s.library.rounds[roundId];
    var slot := Slot(d.slot, start, end, round.number);
    SlotFitsToo(round.slots, |s.library.texts[textId].content|, slot);
    AmendedLibrary(s.library, roundId, round.(slots := round.slots + [slot]), s.issued, s.issued + {d.slot, d.seed});
  }

  lemma NewSlotBallots(s: Store, textId: Id, roundId: Id, start: nat, end: nat, d: Draws)
    requires BallotsOk(s.library, s.ballots, s.issued) && OpensSlot(s, textId, roundId, start, end, d)
    ensures var t := NewSlot(s, textId, roundId, start, end, d); BallotsOk(t.library, t.ballots, t.issued)
  {
    NewSlotSeeds(s, textId, roundId, start, end, d);
    var seed := Fragment(textId, d.slot, s.library.texts[textId].content[start..end], SEED, d.seededAt);
    NewFragment(s.library.texts.Keys, s.ballots, d.seed, seed, s.issued);
    assert s.issued + {d.seed, d.slot} == s.issued + {d.slot, d.seed};
    hide SeedsOk;
    hide FragmentsOk;
    hide VotesOk;
    hide BallotIdsOk;
  }

  lemma NewSlotKeeps(s: Store, textId: Id, roundId: Id, start: nat, end: nat, d: Draws)
    requires Invariant(s) && OpensSlot(s, textId, roundId, start, end, d)
    ensures Invariant(NewSlot(s, textId, roundId, start, end, d))
  {
    NewSlotLibrary(s, textId, roundId, start, end, d);
    NewSlotBallots(s, textId, roundId, start, end, d);
    MoreIssued(s, s.issued + {d.slot, d.seed});
    AmendedListings(s.library, NewSlot(s, textId, roundId, start, end, d).library, s.follows, s.tagIndex,
      s.issued + {d.slot, d.seed});
    hide LibraryOk;
    hide BallotsOk;
    hide ListingsOk;
  }

  /** Labels depend on the texts and their succession alone. */
  lemma AmendedListings(l: Library, l': Library, f: Follows, tagIndex: set<(Tag, Id)>, issued: set<Id>)
    requires ListingsOk(l, f, tagIndex, issued) && l'.texts == l.texts && l'.supersededBy == l.supersededBy
    ensures ListingsOk(l', f, tagIndex, issued)
  {
  }

  lemma SlotFitsToo(slots: seq<Slot>, length: nat, slot: Slot)
    requires SlotsFit(slots, length) && slot.start < slot.end <= length
    requires ResolveSlot(slots, slot.start, slot.end) == Ok(None)
    requires forall i :: 0 <= i < |slots| ==> slots[i].id != slot.id
    ensures SlotsFit(slots + [slot], length)
  {
    ResolvesExactly(slots, length, slot.start, slot.end);
  }

  lemma FragmentKeeps(s: Store, id: Id, fragment: Fragment)
    requires Invariant(s) && id !in s.issued && fragment.textId in s.library.texts && fragment.slotId in s.issued
    ensures Invariant(FragmentAdded(s, id, fragment))
  {
    var more := s.issued + {id};
    FragmentBallots(s.library, s.ballots, id, fragment, s.issued);
    MoreIssued(s, more);
    hide LibraryOk;
    hide BallotsOk;
    hide ListingsOk;
  }

  lemma FragmentBallots(l: Library, b: Ballots, id: Id, fragment: Fragment, issued: set<Id>)
    requires BallotsOk(l, b, issued) && id !in issued && fragment.textId in l.texts && fragment.slotId in issued
    ensures BallotsOk(l, WithFragment(b, id, fragment), issued + {id})
  {
    NewFragment(l.texts.Keys, b, id, fragment, issued);
    assert issued + {id, fragment.slotId} == issued + {id};
    SeedsCarried(l, b, l, WithFragment(b, id, fragment)) by {
      SeedTexts(l, b);
    }
    hide SeedsOk;
    hide FragmentsOk;
    hide VotesOk;
  }

  /** A round that has slots is of a text that still exists. */
  lemma SeedTexts(l: Library, b: Ballots)
    requires SeedsOk(l, b)
    ensures forall r :: r in l.rounds && l.rounds[r].slots != [] ==> l.rounds[r].textId in l.texts
  {
    forall r | r in l.rounds && l.rounds[r].slots != []
      ensures l.rounds[r].textId in l.texts
    {
      assert HasSeed(l, b, l.rounds[r].textId, l.rounds[r].slots[0]);
    }
  }

  /** What a proposal can rely on once its slot is there. */
  ghost predicate SlotReady(s: Store, t: Store, slotId: Id, d: Draws)
  {
    Invariant(t) && t.library.texts == s.library.texts && slotId in t.issued && d.fragment !in t.issued
  }

  lemma SlotOpenedKeeps(s: Store, textId: Id, start: nat, end: nat, d: Draws)
    requires Invariant(s) && FreshDraws(s, d) && textId in s.library.texts
      && start < end <= |s.library.texts[textId].content|
    requires textId in s.library.currentRound && s.library.currentRound[textId] in s.library.rounds
    requires s.library.rounds[s.library.currentRound[textId]].textId == textId
    ensures var seeded := SlotOpened(s, textId, start, end, d);
            seeded.Ok? ==> SlotReady(s, seeded.value.0, seeded.value.1, d)
  {
    hide SlotsFit;
    hide Invariant;
    hide NewSlot;
    var roundId := s.library.currentRound[textId];
    match ResolveSlot(s.library.rounds[roundId].slots, start, end)
    case Err(e) =>
    case Ok(Some(id)) =>
      SlotIsIssued(s, roundId, start, end, id);
    case Ok(None) =>
      NewSlotKeeps(s, textId, roundId, start, end, d);
      NewSlotIds(s, textId, roundId, start, end, d);
  }

  /** Where a round is open, a proposal is the opening of its slot and then the adding of its fragment. */
  lemma ProposalIs(s: Store, textId: Id, start: int, end: int, content: string, author: Id, d: Draws)
    requires textId in s.library.texts && 0 <= start < end <= |s.library.texts[textId].content|
    requires CurrentRound(s.library, textId).Some?
    ensures var seeded, after := SlotOpened(s, textId, start, end, d),
      AfterProposal(s, textId, start, end, content, author, d);
            && (seeded.Err? ==> after == Err(seeded.error))
            && (seeded.Ok? ==> after == Ok(FragmentAdded(seeded.value.0, d.fragment,
                 Fragment(textId, seeded.value.1, content, author, d.addedAt))))
  {
    hide SlotOpened;
    hide FragmentAdded;
  }

  /** A proposal keeps the invariant whether all its batches are stored or only the first of them. */
  lemma ProposalKeeps(s: Store, textId: Id, start: int, end: int, content: string, author: Id, d: Draws)
    requires Invariant(s) && FreshDraws(s, d) && textId in s.library.texts
      && 0 <= start < end <= |s.library.texts[textId].content|
    requires textId !in s.library.supersededBy
    ensures RoundOpened(s, textId, d) == Ok(s) && CurrentRound(s.library, textId).Some?
    ensures var seeded := SlotOpened(s, textId, start, end, d); seeded.Ok? ==> Invariant(seeded.value.0)
    ensures var after := AfterProposal(s, textId, start, end, content, author, d); after.Ok? ==> Invariant(after.value)
  {
    hide Invariant;
    hide SlotOpened;
    hide AfterProposal;
    hide FragmentAdded;
    OpenRoundIs(s, textId);
    SlotOpenedKeeps(s, textId, start, end, d);
    ProposalIs(s, textId, start, end, content, author, d);
    var seeded := SlotOpened(s, textId, start, end, d);
    if seeded.Ok? {
      FragmentKeeps(seeded.value.0, d.fragment, Fragment(textId, seeded.value.1, content, author, d.addedAt));
    }
  }

  lemma OpenRoundIs(s: Store, textId: Id)
    requires Invariant(s) && textId in s.library.texts && textId !in s.library.supersededBy
    ensures textId in s.library.currentRound && s.library.currentRound[textId] in s.library.rounds
    ensures s.library.rounds[s.library.currentRound[textId]].textId == textId
    ensures s.library.rounds[s.library.currentRound[textId]].open
  {
  }

  lemma NewSlotIds(s: Store, textId: Id, roundId: Id, start: nat, end: nat, d: Draws)
    requires OpensSlot(s, textId, roundId, start, end, d)
    ensures var t := NewSlot(s, textId, roundId, start, end, d);
            t.issued == s.issued + {d.slot, d.seed} && t.library.texts == s.library.texts
  {
  }

  lemma SlotIsIssued(s: Store, roundId: Id, start: int, end: int, id: Id)
    requires Invariant(s) && roundId in s.library.rounds
    requires ResolveSlot(s.library.rounds[roundId].slots, start, end) == Ok(Some(id))
    ensures id in s.issued
  {
    ResolvesToSlot(s.library.rounds[roundId].slots, start, end, id);
    hide ResolveSlot;
  }

  lemma {:induction false} ResolvesToSlot(slots: seq<Slot>, start: int, end: int, id: Id)
    requires ResolveSlot(slots, start, end) == Ok(Some(id))
    ensures exists i :: 0 <= i < |slots| && slots[i].id == id && slots[i].start == start && slots[i].end == end
  {
    if slots[0].start == start && slots[0].end == end {
      assert slots[0].id == id;
    } else {
      ResolvesToSlot(slots[1..], start, end, id);
      var i :| 0 <= i < |slots[1..]| && slots[1..][i].id == id && slots[1..][i].start == start
        && slots[1..][i].end == end;
      assert slots[i + 1].id == id;
    }
  }

  lemma BallotsVoted(l: Library, b: Ballots, b': Ballots, issued: set<Id>)
    requires BallotsOk(l, b, issued) && b'.fragments == b.fragments && b'.fragmentIndex == b.fragmentIndex
      && VotesOk(b')
    ensures BallotsOk(l, b', issued)
  {
    SeedTexts(l, b);
    SeedsCarried(l, b, l, b');
    hide SeedsOk;
    hide VotesOk;
  }

  lemma VotesKeep(s: Store, fragmentId: Id, user: Id, now: int)
    requires Invariant(s)
    ensures var after := AfterVote(s, fragmentId, user, now); after.Ok? ==> Invariant(after.value)
    ensures Invariant(AfterDeleteUserVotes(s, user))
  {
    if fragmentId in s.ballots.fragments {
      VoteKeeps(s.ballots, fragmentId, user, now);
      BallotsVoted(s.library, s.ballots, WithVote(s.ballots, fragmentId, user, now), s.issued);
    }
    WithoutVoterKeeps(s.ballots, user);
    BallotsVoted(s.library, s.ballots, WithoutVoter(s.ballots, user), s.issued);
    hide LibraryOk;
    hide BallotsOk;
    hide ListingsOk;
    hide VotesOk;
  }

  lemma ScheduleKeeps(s: Store, textId: Id, closeAt: int, user: Id)
    requires Invariant(s)
    ensures var after := AfterSchedule(s, textId, closeAt, user); after.Ok? ==> Invariant(after.value)
  {
    hide LibraryOk;
    hide BallotsOk;
    hide ListingsOk;
    var after := AfterSchedule(s, textId, closeAt, user);
    if after.Ok? {
      var id := s.library.currentRound[textId];
      ScheduledLibrary(s.library, id, closeAt, user, s.issued);
      ScheduledBallots(s.library, s.ballots, id, closeAt, user, s.issued);
      AmendedListings(s.library, after.value.library, s.follows, s.tagIndex, s.issued);
    }
  }

  lemma ScheduledLibrary(l: Library, id: Id, closeAt: int, user: Id, issued: set<Id>)
    requires LibraryOk(l, issued) && id in l.rounds && l.rounds[id].slots != []
    ensures LibraryOk(Scheduled(l, id, closeAt, user), issued)
  {
    AmendedLibrary(l, id, l.rounds[id].(closeAt := Some(closeAt), closeBy := Some(user)), issued, issued);
  }

  lemma ScheduledBallots(l: Library, b: Ballots, id: Id, closeAt: int, user: Id, issued: set<Id>)
    requires BallotsOk(l, b, issued) && id in l.rounds
    ensures BallotsOk(Scheduled(l, id, closeAt, user), b, issued)
  {
    SeedTexts(l, b);
    SeedsCarried(l, b, Scheduled(l, id, closeAt, user), b);
    hide SeedsOk;
    hide VotesOk;
  }

  lemma FollowsKeep(s: Store, user: Id, textId: Id, now: int)
    requires Invariant(s)
    ensures var after := AfterSubscribe(s, user, textId, now); after.Ok? ==> Invariant(after.value)
    ensures Invariant(AfterUnsubscribe(s, user, textId)) && Invariant(AfterDeleteUserSubscriptions(s, user))
  {
    FollowingKeeps(s.follows, user, textId, now);
    var l, f, g := s.library, s.follows, s.tagIndex;
    var off := Follows(f.subs - {(textId, user)}, f.index - {(user, textId)});
    FollowsChanged(l, f, off, g, s.issued);
    FollowsChanged(l, f, WithoutFollower(f, user), g, s.issued);
    if textId in l.texts {
      assert textId in s.issued;
      FollowsChanged(l, f, Following(f, user, textId, now), g, s.issued);
    }
    hide LibraryOk;
    hide BallotsOk;
    hide ListingsOk;
    hide FollowsOk;
  }

  lemma FollowsChanged(l: Library, f: Follows, f': Follows, tagIndex: set<(Tag, Id)>, issued: set<Id>)
    requires ListingsOk(l, f, tagIndex, issued) && FollowsOk(f')
    requires forall k :: k in f'.subs ==> k in f.subs || k.0 in issued
    ensures ListingsOk(l, f', tagIndex, issued)
  {
  }

  /** No user is the author of a seed, so no user's departure takes a slot's seed away. */
  lemma DeleteUserFragmentsKeeps(s: Store, user: Id)
    requires Invariant(s) && user != SEED
    ensures Invariant(AfterDeleteUserFragments(s, user))
  {
    DepartedBallots(s.library, s.ballots, user, s.issued);
    hide LibraryOk;
    hide BallotsOk;
    hide ListingsOk;
  }

  lemma DepartedBallots(l: Library, b: Ballots, user: Id, issued: set<Id>)
    requires BallotsOk(l, b, issued) && user != SEED
    ensures BallotsOk(l, WithoutFragments(b, FragmentsBy(b, user)), issued)
  {
    WithoutFragmentsKeeps(l.texts.Keys, b, FragmentsBy(b, user), issued);
    SeedTexts(l, b);
    SeedsCarried(l, b, l, WithoutFragments(b, FragmentsBy(b, user)));
    hide SeedsOk;
    hide FragmentsOk;
    hide VotesOk;
    hide BallotIdsOk;
  }

  lemma WithoutTextsBallots(l: Library, b: Ballots, gone: set<Id>, issued: set<Id>)
    requires BallotsOk(l, b, issued)
    ensures BallotsOk(WithoutTexts(l, gone), WithoutBallotsOn(b, gone), issued)
  {
    WithoutBallotsKeeps(l.texts.Keys, b, gone, issued);
    assert WithoutTexts(l, gone).texts.Keys == l.texts.Keys - gone;
    SeedTexts(l, b);
    FragmentsOnAre(l.texts.Keys, b, gone);
    hide FragmentsOn;
    SeedsCarried(l, b, WithoutTexts(l, gone), WithoutBallotsOn(b, gone));
    hide SeedsOk;
    hide FragmentsOk;
    hide VotesOk;
    hide BallotIdsOk;
  }

  lemma WithoutTextsListings(l: Library, f: Follows, tagIndex: set<(Tag, Id)>, gone: set<Id>, issued: set<Id>)
    requires ListingsOk(l, f, tagIndex, issued)
    ensures ListingsOk(WithoutTexts(l, gone), f, tagIndex, issued)
  {
  }

  lemma DeleteTextListings(l: Library, f: Follows, tagIndex: set<(Tag, Id)>, textId: Id, tags: seq<Tag>,
      issued: set<Id>)
    requires ListingsOk(l, f, tagIndex, issued)
    ensures ListingsOk(WithoutTexts(l, {textId}), WithoutFollowed(f, textId), tagIndex - TagEntries(tags, textId),
      issued)
  {
    WithoutFollowedKeeps(f, textId);
    TagEntriesAre(tags, textId);
    hide TagEntries;
    hide FollowsOk;
  }

  lemma DeleteTextKeeps(s: Store, textId: Id)
    requires Invariant(s)
    ensures var after := AfterDeleteText(s, textId); after.Ok? ==> Invariant(after.value)
  {
    if textId in s.library.texts {
      WithoutTextsLibrary(s.library, {textId}, s.issued);
      WithoutTextsBallots(s.library, s.ballots, {textId}, s.issued);
      DeleteTextListings(s.library, s.follows, s.tagIndex, textId, s.library.texts[textId].tags, s.issued);
    }
    hide LibraryOk;
    hide BallotsOk;
    hide ListingsOk;
  }

  lemma DeleteUserTextsKeeps(s: Store, user: Id)
    requires Invariant(s)
    ensures Invariant(AfterDeleteUserTexts(s, user))
  {
    var gone := TextsBy(s.library, user);
    WithoutTextsLibrary(s.library, gone, s.issued);
    WithoutTextsBallots(s.library, s.ballots, gone, s.issued);
    WithoutTextsListings(s.library, s.follows, s.tagIndex, gone, s.issued);
    hide LibraryOk;
    hide BallotsOk;
    hide ListingsOk;
  }

  // ---- Closing ----

  /** Every slot of a live text is still decidable: its seed at least is there to win. */
  lemma SlotsDecidable(l: Library, b: Ballots, roundId: Id)
    requires SeedsOk(l, b) && FragmentsOk(l.texts.Keys, b) && roundId in l.rounds
    ensures Decidable(b, l.rounds[roundId].textId, l.rounds[roundId].slots)
  {
    var textId, slots := l.rounds[roundId].textId, l.rounds[roundId].slots;
    forall i | 0 <= i < |slots|
      ensures Candidates(b, textId, slots[i].id) != {} && Candidates(b, textId, slots[i].id) <= b.fragments.Keys
    {
      assert HasSeed(l, b, textId, slots[i]);
      var f :| IsSeed(l, b, textId, slots[i], f);
      assert (textId, slots[i].id, f) in b.fragmentIndex;
      assert f in Candidates(b, textId, slots[i].id);
    }
  }

  /**
   * On a text that exists and is not superseded, closing fails only for a round nobody proposed anything in;
   * on any other it finds no open round. In no reachable store does it miss a text or a winner.
   */
  lemma CloseProgress(s: Store, textId: Id, d: CloseDraws)
    requires Invariant(s)
    ensures CloseOutcome(s, textId, d) == Err(NoOpenRound) <==>
      textId !in s.library.texts || textId in s.library.supersededBy
    ensures textId in s.library.texts && textId !in s.library.supersededBy ==>
      && textId in s.library.currentRound && s.library.currentRound[textId] in s.library.rounds
      && (CloseOutcome(s, textId, d) == Err(EmptyRound) <==>
        s.library.rounds[s.library.currentRound[textId]].slots == [])
      && (CloseOutcome(s, textId, d).Ok? <==> s.library.rounds[s.library.currentRound[textId]].slots != [])
    ensures CloseOutcome(s, textId, d).Ok? <==> Closable(s, textId)
  {
    hide AfterClose;
    hide SeedsOk;
    hide FragmentsOk;
    hide SlotsFit;
    hide Decidable;
    if textId in s.library.texts && textId !in s.library.supersededBy {
      SlotsDecidable(s.library, s.ballots, s.library.currentRound[textId]);
    }
  }

  lemma CloseBallots(l: Library, b: Ballots, textId: Id, fork: Text, d: CloseDraws, issued: set<Id>)
    requires LibraryOk(l, issued) && BallotsOk(l, b, issued) && Forks(l, textId, fork, d, issued)
    ensures BallotsOk(ForkedLibrary(l, textId, fork, d), b, issued + {d.text, d.round})
  {
    hide PointersOk;
    hide CurrentOk;
    hide RoundIndexOk;
    hide SlotsOk;
    hide ChainOk;
    hide VotesOk;
    hide SeedsOk;
    hide FragmentsOk;
    CarriedToNewText(l, b, ForkedLibrary(l, textId, fork, d), d.text);
  }

  lemma CloseOtherIds(f: Follows, tagIndex: set<(Tag, Id)>, textId: Id, tags: seq<Tag>, d: CloseDraws, issued: set<Id>)
    requires FollowsOk(f) && OtherIdsOk(f, tagIndex, issued) && textId != d.text
    ensures OtherIdsOk(MovedFollowers(f, textId, d.text, d.closedAt),
      tagIndex - TagEntries(tags, textId) + TagEntries(tags, d.text), issued + {d.text, d.round})
  {
    MovedMembers(f, textId, d.text, d.closedAt);
    hide MovedFollowers;
    var g := MovedFollowers(f, textId, d.text, d.closedAt);
    forall k | k in g.subs
      ensures k in f.subs || k.0 == d.text
    {
      assert (k.0, k.1) in g.subs;
    }
  }

  lemma CloseListings(l: Library, f: Follows, tagIndex: set<(Tag, Id)>, textId: Id, fork: Text, d: CloseDraws,
      issued: set<Id>)
    requires LibraryOk(l, issued) && ListingsOk(l, f, tagIndex, issued) && Forks(l, textId, fork, d, issued)
    requires textId in l.texts && fork.tags == l.texts[textId].tags
    ensures ListingsOk(ForkedLibrary(l, textId, fork, d), MovedFollowers(f, textId, d.text, d.closedAt),
      tagIndex - TagEntries(fork.tags, textId) + TagEntries(fork.tags, d.text), issued + {d.text, d.round})
  {
    hide PointersOk;
    hide CurrentOk;
    hide RoundsOk;
    hide RoundIndexOk;
    hide SlotsOk;
    hide ChainOk;
    hide LibraryIdsOk;
    hide TagsOk;
    hide FollowsOk;
    hide OtherIdsOk;
    hide MovedFollowers;
    hide TagEntries;
    ForkedTags(l, textId, fork, d, tagIndex, f, issued);
    MovedMembers(f, textId, d.text, d.closedAt);
    CloseOtherIds(f, tagIndex, textId, fork.tags, d, issued);
  }

  lemma CloseForks(s: Store, textId: Id, d: CloseDraws)
    requires LibraryOk(s.library, s.issued) && Closable(s, textId) && FreshPair(s.issued, d.text, d.round)
    ensures textId in s.library.texts && Forks(s.library, textId, ForkOf(s, textId, d), d, s.issued)
    ensures ForkOf(s, textId, d).tags == s.library.texts[textId].tags
  {
    hide SlotsFit;
    hide Decidable;
    hide Settled;
  }

  lemma CloseKeeps(s: Store, textId: Id, d: CloseDraws)
    requires Invariant(s) && Closable(s, textId) && FreshPair(s.issued, d.text, d.round)
    ensures Invariant(AfterClose(s, textId, d))
  {
    hide LibraryOk;
    hide BallotsOk;
    hide ListingsOk;
    hide ForkOf;
    hide Closable;
    hide ForkedLibrary;
    CloseForks(s, textId, d);
    var fork := ForkOf(s, textId, d);
    ForkedLibraryOk(s.library, textId, fork, d, s.issued);
    CloseBallots(s.library, s.ballots, textId, fork, d, s.issued);
    CloseListings(s.library, s.follows, s.tagIndex, textId, fork, d, s.issued);
  }

  // ---- Runs ----

  /** A call on the repository; a proposal may have only its first batches stored. */
  datatype Event =
    | CreateText(id: Id, round: Id, title: string, content: string, author: Id, tags: seq<Tag>, now: int, openedAt: int)
    | ProposeEdit(textId: Id, start: int, end: int, content: string, author: Id, d: Draws, batches: nat)
    | CastVote(fragmentId: Id, user: Id, now: int)
    | ScheduleRoundClose(textId: Id, closeAt: int, user: Id)
    | CloseRound(textId: Id, cd: CloseDraws)
    | Subscribe(user: Id, textId: Id, now: int)
    | Unsubscribe(user: Id, textId: Id)
    | DeleteUserSubscriptions(user: Id)
    | DeleteUserVotes(user: Id)
    | DeleteUserFragments(user: Id)
    | DeleteUserTexts(user: Id)
    | DeleteText(textId: Id)

  /** New ids are new, and nobody is called "seed". */
  predicate Permitted(s: Store, e: Event)
  {
    match e
    case CreateText(id, round, _, _, _, _, _, _) => FreshPair(s.issued, id, round)
    case ProposeEdit(_, _, _, _, _, d, _) => FreshDraws(s, d)
    case CloseRound(_, cd) => FreshPair(s.issued, cd.text, cd.round)
    case DeleteUserFragments(user) => user != SEED
    case _ => true
  }

  /** A call that fails writes nothing. */
  function OrElse(r: Result<Store, RepositoryError>, s: Store): Store
  {
    if r.Ok? then r.value else s
  }

  /** What a proposal leaves of which `batches` after the opening of a round were stored. */
  function ProposalLeaves(s: Store, textId: Id, start: int, end: int, content: string, author: Id, d: Draws,
      batches: nat): Store
  {
    if textId !in s.library.texts || start < 0 || end <= start || end > |s.library.texts[textId].content| then s
    else if RoundOpened(s, textId, d).Err? then s
    else
      var ready := RoundOpened(s, textId, d).value;
      if batches == 0 || SlotOpened(ready, textId, start, end, d).Err? then ready
      else if batches == 1 then SlotOpened(ready, textId, start, end, d).value.0
      else OrElse(AfterProposal(s, textId, start, end, content, author, d), s)
  }

  ghost function Step(s: Store, e: Event): Store
  {
    match e
    case CreateText(id, round, title, content, author, tags, now, openedAt) =>
      AfterCreateText(s, id, round, title, content, author, tags, now, openedAt)
    case ProposeEdit(textId, start, end, content, author, d, batches) =>
      ProposalLeaves(s, textId, start, end, content, author, d, batches)
    case CastVote(fragmentId, user, now) => OrElse(AfterVote(s, fragmentId, user, now), s)
    case ScheduleRoundClose(textId, closeAt, user) => OrElse(AfterSchedule(s, textId, closeAt, user), s)
    case CloseRound(textId, cd) => OrElse(CloseOutcome(s, textId, cd), s)
    case Subscribe(user, textId, now) => OrElse(AfterSubscribe(s, user, textId, now), s)
    case Unsubscribe(user, textId) => AfterUnsubscribe(s, user, textId)
    case DeleteUserSubscriptions(user) => AfterDeleteUserSubscriptions(s, user)
    case DeleteUserVotes(user) => AfterDeleteUserVotes(s, user)
    case DeleteUserFragments(user) => AfterDeleteUserFragments(s, user)
    case DeleteUserTexts(user) => AfterDeleteUserTexts(s, user)
    case DeleteText(textId) => OrElse(AfterDeleteText(s, textId), s)
  }

  lemma StepKeeps(s: Store, e: Event)
    requires Invariant(s) && Permitted(s, e)
    ensures Invariant(Step(s, e))
  {
    hide Invariant;
    hide AfterVote;
    hide AfterSchedule;
    hide AfterSubscribe;
    hide AfterDeleteText;
    hide CloseOutcome;
    hide ProposalLeaves;
    match e
    case CreateText(id, round, title, content, author, tags, now, openedAt) =>
      CreateKeeps(s, id, round, title, content, author, tags, now, openedAt);
    case ProposeEdit(textId, start, end, content, author, d, batches) =>
      ProposalLeavesKeeps(s, textId, start, end, content, author, d, batches);
    case CastVote(fragmentId, user, now) => VotesKeep(s, fragmentId, user, now);
    case ScheduleRoundClose(textId, closeAt, user) => ScheduleKeeps(s, textId, closeAt, user);
    case CloseRound(textId, cd) => CloseOutcomeKeeps(s, textId, cd);
    case Subscribe(user, textId, now) => FollowsKeep(s, user, textId, now);
    case Unsubscribe(user, textId) => FollowsKeep(s, user, textId, 0);
    case DeleteUserSubscriptions(user) => FollowsKeep(s, user, user, 0);
    case DeleteUserVotes(user) => VotesKeep(s, user, user, 0);
    case DeleteUserFragments(user) => DeleteUserFragmentsKeeps(s, user);
    case DeleteUserTexts(user) => DeleteUserTextsKeeps(s, user);
    case DeleteText(textId) => DeleteTextKeeps(s, textId);
  }

  lemma CloseOutcomeKeeps(s: Store, textId: Id, cd: CloseDraws)
    requires Invariant(s) && FreshPair(s.issued, cd.text, cd.round)
    ensures Invariant(OrElse(CloseOutcome(s, textId, cd), s))
  {
    hide Invariant;
    hide AfterClose;
    CloseProgress(s, textId, cd);
    if Closable(s, textId) {
      CloseKeeps(s, textId, cd);
    }
    hide Closable;
  }

  /** What a proposal leaves where a round is open on the text. */
  lemma LeavesIs(s: Store, textId: Id, start: int, end: int, content: string, author: Id, d: Draws, batches: nat)
    requires textId in s.library.texts && 0 <= start < end <= |s.library.texts[textId].content|
    requires CurrentRound(s.library, textId).Some?
    ensures var seeded := SlotOpened(s, textId, start, end, d);
            ProposalLeaves(s, textId, start, end, content, author, d, batches) ==
              if batches == 0 || seeded.Err? then s
              else if batches == 1 then seeded.value.0
              else FragmentAdded(seeded.value.0, d.fragment,
                Fragment(textId, seeded.value.1, content, author, d.addedAt))
  {
    hide SlotOpened;
    hide FragmentAdded;
  }

  lemma ProposalLeavesKeeps(s: Store, textId: Id, start: int, end: int, content: string, author: Id, d: Draws,
      batches: nat)
    requires Invariant(s) && FreshDraws(s, d)
    ensures Invariant(ProposalLeaves(s, textId, start, end, content, author, d, batches))
  {
    hide Invariant;
    hide SlotOpened;
    hide AfterProposal;
    hide FragmentAdded;
    if textId in s.library.texts && 0 <= start < end <= |s.library.texts[textId].content| {
      NeverReopens(s, textId, d);
      if textId !in s.library.supersededBy {
        ProposalKeeps(s, textId, start, end, content, author, d);
        ProposalIs(s, textId, start, end, content, author, d);
        LeavesIs(s, textId, start, end, content, author, d, batches);
      }
      hide RoundOpened;
    }
  }

  /** The store a run of calls leads to, from an empty one. */
  ghost function StoreAfter(events: seq<Event>): Store
  {
    if events == [] then EMPTY else Step(StoreAfter(events[..|events| - 1]), events[|events| - 1])
  }

  ghost predicate Allowed(events: seq<Event>)
  {
    events == [] ||
    (Allowed(events[..|events| - 1]) && Permitted(StoreAfter(events[..|events| - 1]), events[|events| - 1]))
  }

  /** Every reachable store satisfies the invariant. */
  lemma {:induction false} ReachableStores(events: seq<Event>)
    requires Allowed(events)
    ensures Invariant(StoreAfter(events))
  {
    hide Invariant;
    if events == [] {
      EmptyOk();
    } else {
      ReachableStores(events[..|events| - 1]);
      StepKeeps(StoreAfter(events[..|events| - 1]), events[|events| - 1]);
    }
  }
}
