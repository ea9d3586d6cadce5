/** Every operation of the repository keeps the invariant of its store. */
module DeliberationSteps {
  import opened Wrappers
  import opened Bytes
  import opened Splicing
  import opened Deliberation

  // ---- Growing sets of issued ids ----

  lemma MoreIssued(s: Store, issued: set<Id>)
    requires s.issued <= issued
    ensures LibraryOk(s.library, s.issued) ==> LibraryOk(s.library, issued)
    ensures BallotsOk(s.library, s.ballots, s.issued) ==> BallotsOk(s.library, s.ballots, issued)
    ensures ListingsOk(s.library, s.follows, s.tagIndex, s.issued) ==>
      ListingsOk(s.library, s.follows, s.tagIndex, issued)
  {
    hide PointersOk;
    hide CurrentOk;
    hide RoundsOk;
    hide RoundIndexOk;
    hide SlotsOk;
    hide ChainOk;
    hide SeedsOk;
    hide FragmentsOk;
    hide VotesOk;
    hide TagsOk;
    hide FollowsOk;
  }

  // ---- A new text with its round ----

  function NewText(l: Library, id: Id, text: Text, roundId: Id, number: nat, now: int): Library
  {
    WithRound(WithText(l, id, text), id, roundId, number, now)
  }

  predicate FreshPair(issued: set<Id>, id: Id, roundId: Id)
  {
    id !in issued && roundId !in issued && id != roundId
  }

  lemma NewTextPointers(l: Library, id: Id, text: Text, roundId: Id, number: nat, now: int, issued: set<Id>)
    requires PointersOk(l) && LibraryIdsOk(l, issued) && FreshPair(issued, id, roundId)
    ensures PointersOk(NewText(l, id, text, roundId, number, now))
  {
  }

  lemma NewTextCurrent(l: Library, id: Id, text: Text, roundId: Id, number: nat, now: int, issued: set<Id>)
    requires PointersOk(l) && CurrentOk(l) && LibraryIdsOk(l, issued) && FreshPair(issued, id, roundId)
    ensures CurrentOk(NewText(l, id, text, roundId, number, now))
  {
  }

  lemma NewTextRounds(l: Library, id: Id, text: Text, roundId: Id, number: nat, now: int, issued: set<Id>)
    requires RoundsOk(l) && LibraryIdsOk(l, issued) && FreshPair(issued, id, roundId)
    ensures RoundsOk(NewText(l, id, text, roundId, number, now))
  {
  }

  lemma NewTextIndex(l: Library, id: Id, text: Text, roundId: Id, number: nat, now: int, issued: set<Id>)
    requires RoundIndexOk(l) && LibraryIdsOk(l, issued) && FreshPair(issued, id, roundId)
    ensures RoundIndexOk(NewText(l, id, text, roundId, number, now))
  {
  }

  lemma NewTextSlots(l: Library, id: Id, text: Text, roundId: Id, number: nat, now: int, issued: set<Id>)
    requires RoundsOk(l) && SlotsOk(l) && LibraryIdsOk(l, issued) && FreshPair(issued, id, roundId)
    ensures SlotsOk(NewText(l, id, text, roundId, number, now))
  {
  }

  lemma NewTextChain(l: Library, id: Id, text: Text, roundId: Id, number: nat, now: int, issued: set<Id>)
    requires PointersOk(l) && ChainOk(l) && LibraryIdsOk(l, issued) && FreshPair(issued, id, roundId)
      && text.previous.None?
    ensures ChainOk(NewText(l, id, text, roundId, number, now))
  {
  }

  lemma NewTextIds(l: Library, id: Id, text: Text, roundId: Id, number: nat, now: int, issued: set<Id>)
    requires LibraryIdsOk(l, issued) && text.previous.None?
    ensures LibraryIdsOk(NewText(l, id, text, roundId, number, now), issued + {id, roundId})
  {
  }

  lemma NewTextLibrary(l: Library, id: Id, text: Text, roundId: Id, number: nat, now: int, issued: set<Id>)
    requires LibraryOk(l, issued) && FreshPair(issued, id, roundId) && text.previous.None?
    ensures LibraryOk(NewText(l, id, text, roundId, number, now), issued + {id, roundId})
  {
    NewTextPointers(l, id, text, roundId, number, now, issued);
    NewTextCurrent(l, id, text, roundId, number, now, issued);
    NewTextRounds(l, id, text, roundId, number, now, issued);
    NewTextIndex(l, id, text, roundId, number, now, issued);
    NewTextSlots(l, id, text, roundId, number, now, issued);
    NewTextChain(l, id, text, roundId, number, now, issued);
    NewTextIds(l, id, text, roundId, number, now, issued);
    hide PointersOk;
    hide CurrentOk;
    hide RoundsOk;
    hide RoundIndexOk;
    hide SlotsOk;
    hide ChainOk;
    hide LibraryIdsOk;
  }

  // ---- A change to one round that leaves it the same text, number and state ----

  predicate Amends(l: Library, roundId: Id, round: Round, issued: set<Id>)
  {
    && roundId in l.rounds && var old' := l.rounds[roundId];
    && round.textId == old'.textId && round.number == old'.number && round.open == old'.open
    && (round.textId in l.texts ==>
          SlotsFit(round.slots, |l.texts[round.textId].content|) && (round.closeAt.Some? ==> round.slots != []))
    && forall i :: 0 <= i < |round.slots| ==> round.slots[i].id in issued
  }

  lemma AmendedLibrary(l: Library, roundId: Id, round: Round, issued: set<Id>, more: set<Id>)
    requires LibraryOk(l, issued) && issued <= more && Amends(l, roundId, round, more)
    ensures LibraryOk(l.(rounds := l.rounds[roundId := round]), more)
  {
    AmendedPointers(l, roundId, round);
    AmendedRounds(l, roundId, round);
    AmendedSlots(l, roundId, round, issued, more);
    hide PointersOk;
    hide CurrentOk;
    hide RoundsOk;
    hide RoundIndexOk;
    hide SlotsOk;
    hide ChainOk;
    hide LibraryIdsOk;
  }

  lemma AmendedPointers(l: Library, roundId: Id, round: Round)
    requires PointersOk(l) && ChainOk(l)
    ensures var l' := l.(rounds := l.rounds[roundId := round]); PointersOk(l') && ChainOk(l')
  {
  }

  lemma AmendedRounds(l: Library, roundId: Id, round: Round)
    requires CurrentOk(l) && RoundsOk(l) && RoundIndexOk(l) && roundId in l.rounds
    requires round.textId == l.rounds[roundId].textId && round.number == l.rounds[roundId].number
    requires round.open == l.rounds[roundId].open
    ensures var l' := l.(rounds := l.rounds[roundId := round]); CurrentOk(l') && RoundsOk(l') && RoundIndexOk(l')
  {
  }

  lemma AmendedSlots(l: Library, roundId: Id, round: Round, issued: set<Id>, more: set<Id>)
    requires SlotsOk(l) && LibraryIdsOk(l, issued) && issued <= more && Amends(l, roundId, round, more)
    ensures var l' := l.(rounds := l.rounds[roundId := round]); SlotsOk(l') && LibraryIdsOk(l', more)
  {
  }

  // ---- Texts removed ----

  lemma WithoutTextsLibrary(l: Library, gone: set<Id>, issued: set<Id>)
    requires LibraryOk(l, issued)
    ensures LibraryOk(WithoutTexts(l, gone), issued)
  {
    WithoutTextsPointers(l, gone);
    WithoutTextsRounds(l, gone);
    WithoutTextsIndex(l, gone);
    WithoutTextsSlots(l, gone, issued);
    WithoutTextsChain(l, gone);
    hide PointersOk;
    hide CurrentOk;
    hide RoundsOk;
    hide RoundIndexOk;
    hide SlotsOk;
    hide ChainOk;
    hide LibraryIdsOk;
  }

  lemma WithoutTextsPointers(l: Library, gone: set<Id>)
    requires PointersOk(l) && CurrentOk(l)
    ensures PointersOk(WithoutTexts(l, gone)) && CurrentOk(WithoutTexts(l, gone))
  {
  }

  lemma WithoutTextsRounds(l: Library, gone: set<Id>)
    requires RoundsOk(l)
    ensures RoundsOk(WithoutTexts(l, gone))
  {
  }

  lemma WithoutTextsIndex(l: Library, gone: set<Id>)
    requires RoundIndexOk(l)
    ensures RoundIndexOk(WithoutTexts(l, gone))
  {
  }

  lemma WithoutTextsSlots(l: Library, gone: set<Id>, issued: set<Id>)
    requires SlotsOk(l) && LibraryIdsOk(l, issued)
    ensures SlotsOk(WithoutTexts(l, gone)) && LibraryIdsOk(WithoutTexts(l, gone), issued)
  {
  }

  lemma WithoutTextsChain(l: Library, gone: set<Id>)
    requires ChainOk(l) && PointersOk(l)
    ensures ChainOk(WithoutTexts(l, gone))
  {
  }

  // ---- A text forked and superseded ----

  predicate Forks(l: Library, textId: Id, fork: Text, d: CloseDraws, issued: set<Id>)
  {
    && textId in l.currentRound && l.currentRound[textId] in l.rounds && textId in issued
    && FreshPair(issued, d.text, d.round) && fork.previous == Some(textId)
  }

  lemma ForkedPointers(l: Library, textId: Id, fork: Text, d: CloseDraws, issued: set<Id>)
    requires PointersOk(l) && LibraryIdsOk(l, issued) && Forks(l, textId, fork, d, issued)
    ensures PointersOk(ForkedLibrary(l, textId, fork, d))
  {
  }

  lemma ForkedCurrent(l: Library, textId: Id, fork: Text, d: CloseDraws, issued: set<Id>)
    requires PointersOk(l) && CurrentOk(l) && LibraryIdsOk(l, issued) && Forks(l, textId, fork, d, issued)
    ensures CurrentOk(ForkedLibrary(l, textId, fork, d))
  {
  }

  lemma ForkedRounds(l: Library, textId: Id, fork: Text, d: CloseDraws, issued: set<Id>)
    requires PointersOk(l) && CurrentOk(l) && RoundsOk(l) && LibraryIdsOk(l, issued)
      && Forks(l, textId, fork, d, issued)
    ensures RoundsOk(ForkedLibrary(l, textId, fork, d))
  {
  }

  lemma ForkedIndex(l: Library, textId: Id, fork: Text, d: CloseDraws, issued: set<Id>)
    requires RoundIndexOk(l) && LibraryIdsOk(l, issued) && Forks(l, textId, fork, d, issued)
    ensures RoundIndexOk(ForkedLibrary(l, textId, fork, d))
  {
  }

  lemma ForkedSlots(l: Library, textId: Id, fork: Text, d: CloseDraws, issued: set<Id>)
    requires RoundsOk(l) && SlotsOk(l) && LibraryIdsOk(l, issued) && Forks(l, textId, fork, d, issued)
    ensures SlotsOk(ForkedLibrary(l, textId, fork, d))
  {
  }

  lemma ForkedChain(l: Library, textId: Id, fork: Text, d: CloseDraws, issued: set<Id>)
    requires PointersOk(l) && ChainOk(l) && LibraryIdsOk(l, issued) && Forks(l, textId, fork, d, issued)
    requires textId in l.roundCount && l.rounds[l.currentRound[textId]].number == l.roundCount[textId]
    ensures ChainOk(ForkedLibrary(l, textId, fork, d))
  {
  }

  lemma ForkedIds(l: Library, textId: Id, fork: Text, d: CloseDraws, issued: set<Id>)
    requires LibraryIdsOk(l, issued) && Forks(l, textId, fork, d, issued)
    ensures LibraryIdsOk(ForkedLibrary(l, textId, fork, d), issued + {d.text, d.round})
  {
  }

  lemma ForkedLibraryOk(l: Library, textId: Id, fork: Text, d: CloseDraws, issued: set<Id>)
    requires LibraryOk(l, issued) && Forks(l, textId, fork, d, issued)
    ensures LibraryOk(ForkedLibrary(l, textId, fork, d), issued + {d.text, d.round})
  {
    ForkedPointers(l, textId, fork, d, issued);
    ForkedCurrent(l, textId, fork, d, issued);
    ForkedRounds(l, textId, fork, d, issued);
    ForkedIndex(l, textId, fork, d, issued);
    ForkedSlots(l, textId, fork, d, issued);
    ForkedChain(l, textId, fork, d, issued);
    ForkedIds(l, textId, fork, d, issued);
    hide PointersOk;
    hide CurrentOk;
    hide RoundsOk;
    hide RoundIndexOk;
    hide SlotsOk;
    hide ChainOk;
    hide LibraryIdsOk;
  }

  // ---- Seeds, fragments and votes ----

  /** Slots and seeds that are carried over still go together. */
  lemma SeedsCarried(l: Library, b: Ballots, l': Library, b': Ballots)
    requires SeedsOk(l, b)
    requires forall r :: r in l'.rounds && l'.rounds[r].slots != [] ==>
      && r in l.rounds && l'.rounds[r].slots == l.rounds[r].slots && l'.rounds[r].textId == l.rounds[r].textId
      && l.rounds[r].textId in l'.texts
    requires forall t :: t in l.texts && t in l'.texts ==> l'.texts[t].content == l.texts[t].content
    requires forall f :: f in b.fragments && b.fragments[f].authorId == SEED && b.fragments[f].textId in l'.texts ==>
      f in b'.fragments && b'.fragments[f] == b.fragments[f]
    ensures SeedsOk(l', b')
  {
    forall r, i | r in l'.rounds && 0 <= i < |l'.rounds[r].slots|
      ensures HasSeed(l', b', l'.rounds[r].textId, l'.rounds[r].slots[i])
    {
      assert HasSeed(l, b, l.rounds[r].textId, l.rounds[r].slots[i]);
      var f :| IsSeed(l, b, l.rounds[r].textId, l.rounds[r].slots[i], f);
      assert IsSeed(l', b', l'.rounds[r].textId, l'.rounds[r].slots[i], f);
    }
  }

  lemma NewFragment(texts: set<Id>, b: Ballots, id: Id, fragment: Fragment, issued: set<Id>)
    requires FragmentsOk(texts, b) && VotesOk(b) && BallotIdsOk(b, issued) && id !in issued
    requires fragment.textId in texts && fragment.slotId in issued + {fragment.slotId}
    ensures FragmentsOk(texts, WithFragment(b, id, fragment)) && VotesOk(WithFragment(b, id, fragment))
    ensures BallotIdsOk(WithFragment(b, id, fragment), issued + {id, fragment.slotId})
  {
  }

  /** One vote per user and slot: voting withdraws the vote it replaces. */
  lemma VoteKeeps(b: Ballots, fragmentId: Id, user: Id, now: int)
    requires VotesOk(b) && fragmentId in b.fragments
    ensures VotesOk(WithVote(b, fragmentId, user, now))
  {
  }

  lemma WithoutVoterKeeps(b: Ballots, user: Id)
    requires VotesOk(b)
    ensures VotesOk(WithoutVoter(b, user))
  {
  }

  lemma WithoutFragmentsKeeps(texts: set<Id>, b: Ballots, gone: set<Id>, issued: set<Id>)
    requires FragmentsOk(texts, b) && VotesOk(b) && BallotIdsOk(b, issued)
    ensures FragmentsOk(texts, WithoutFragments(b, gone)) && VotesOk(WithoutFragments(b, gone))
    ensures BallotIdsOk(WithoutFragments(b, gone), issued)
  {
  }

  lemma FragmentsOnAre(texts: set<Id>, b: Ballots, gone: set<Id>)
    requires FragmentsOk(texts, b)
    ensures forall f :: f in FragmentsOn(b, gone) <==> f in b.fragments && b.fragments[f].textId in gone
  {
    forall f | f in b.fragments && b.fragments[f].textId in gone
      ensures f in FragmentsOn(b, gone)
    {
      assert (b.fragments[f].textId, b.fragments[f].slotId, f) in b.fragmentIndex;
    }
  }

  lemma WithoutBallotsKeeps(texts: set<Id>, b: Ballots, gone: set<Id>, issued: set<Id>)
    requires FragmentsOk(texts, b) && VotesOk(b) && BallotIdsOk(b, issued)
    ensures FragmentsOk(texts - gone, WithoutBallotsOn(b, gone)) && VotesOk(WithoutBallotsOn(b, gone))
    ensures BallotIdsOk(WithoutBallotsOn(b, gone), issued)
  {
    WithoutBallotsFragments(texts, b, gone, issued);
    WithoutBallotsVotes(texts, b, gone);
    hide FragmentsOk;
    hide VotesOk;
    hide BallotIdsOk;
  }

  lemma WithoutBallotsFragments(texts: set<Id>, b: Ballots, gone: set<Id>, issued: set<Id>)
    requires FragmentsOk(texts, b) && BallotIdsOk(b, issued)
    ensures FragmentsOk(texts - gone, WithoutBallotsOn(b, gone)) && BallotIdsOk(WithoutBallotsOn(b, gone), issued)
  {
    FragmentsOnAre(texts, b, gone);
    hide FragmentsOn;
  }

  lemma WithoutBallotsVotes(texts: set<Id>, b: Ballots, gone: set<Id>)
    requires FragmentsOk(texts, b) && VotesOk(b)
    ensures VotesOk(WithoutBallotsOn(b, gone))
  {
    FragmentsOnAre(texts, b, gone);
    hide FragmentsOn;
  }

  /** A new slot comes with a seed of its own. */
  lemma NewSlotSeeds(s: Store, textId: Id, roundId: Id, start: nat, end: nat, d: Draws)
    requires SeedsOk(s.library, s.ballots) && BallotIdsOk(s.ballots, s.issued) && FreshDraws(s, d)
    requires textId in s.library.texts && roundId in s.library.rounds && s.library.rounds[roundId].textId == textId
    requires start < end <= |s.library.texts[textId].content|
    ensures var t := NewSlot(s, textId, roundId, start, end, d); SeedsOk(t.library, t.ballots)
  {
    var t := NewSlot(s, textId, roundId, start, end, d);
    var slots := s.library.rounds[roundId].slots;
    forall r, i | r in t.library.rounds && 0 <= i < |t.library.rounds[r].slots|
      ensures HasSeed(t.library, t.ballots, t.library.rounds[r].textId, t.library.rounds[r].slots[i])
    {
      if r == roundId && i == |slots| {
        assert IsSeed(t.library, t.ballots, textId, t.library.rounds[r].slots[i], d.seed);
      } else {
        var slot := s.library.rounds[r].slots[i];
        assert HasSeed(s.library, s.ballots, s.library.rounds[r].textId, slot);
        var f :| IsSeed(s.library, s.ballots, s.library.rounds[r].textId, slot, f);
        assert IsSeed(t.library, t.ballots, s.library.rounds[r].textId, slot, f);
      }
    }
  }

  // ---- Subscriptions and labels ----

  lemma FollowingKeeps(f: Follows, user: Id, textId: Id, now: int)
    requires FollowsOk(f)
    ensures FollowsOk(Following(f, user, textId, now)) && FollowsOk(WithoutFollower(f, user))
    ensures FollowsOk(Follows(f.subs - {(textId, user)}, f.index - {(user, textId)}))
  {
  }

  lemma SubscribersAre(f: Follows, textId: Id)
    ensures forall u :: u in Subscribers(f, textId) <==> (textId, u) in f.subs
  {
    forall u | (textId, u) in f.subs
      ensures u in Subscribers(f, textId)
    {
      assert (textId, u).0 == textId && (textId, u).1 == u;
    }
  }

  lemma WithoutFollowedKeeps(f: Follows, textId: Id)
    requires FollowsOk(f)
    ensures FollowsOk(WithoutFollowed(f, textId))
  {
    SubscribersAre(f, textId);
    hide Subscribers;
  }

  /** Exactly the subscribers of one text become subscribers of the other, everybody else stays as they are. */
  lemma MovedAre(f: Follows, from: Id, to: Id, now: int)
    requires from != to && FollowsOk(f)
    ensures Subscribers(MovedFollowers(f, from, to, now), to) == Subscribers(f, from) + Subscribers(f, to)
    ensures Subscribers(MovedFollowers(f, from, to, now), from) == {}
    ensures forall t :: t != from && t != to ==> Subscribers(MovedFollowers(f, from, to, now), t) == Subscribers(f, t)
    ensures FollowsOk(MovedFollowers(f, from, to, now))
  {
    var g := MovedFollowers(f, from, to, now);
    forall t
      ensures forall u :: u in Subscribers(g, t) <==> (t, u) in g.subs
      ensures forall u :: u in Subscribers(f, t) <==> (t, u) in f.subs
    {
      SubscribersAre(f, t);
      SubscribersAre(g, t);
    }
    MovedMembers(f, from, to, now);
    hide Subscribers;
    hide MovedFollowers;
    forall t | t != from && t != to
      ensures Subscribers(g, t) == Subscribers(f, t)
    {
    }
  }

  lemma MovedMembers(f: Follows, from: Id, to: Id, now: int)
    requires from != to && FollowsOk(f)
    ensures var g := MovedFollowers(f, from, to, now);
            && (forall t, u :: (t, u) in g.subs <==>
              t != from && ((t, u) in f.subs || (t == to && (from, u) in f.subs)))
            && FollowsOk(g)
  {
    SubscribersAre(f, from);
    hide Subscribers;
    var g := MovedFollowers(f, from, to, now);
    var users := Subscribers(f, from);
    var arriving := set u | u in users :: (to, u);
    forall t, u
      ensures (t, u) in arriving <==> t == to && u in users
    {
    }
    var arrivingIndex := set u | u in users :: (u, to);
    forall t, u
      ensures (u, t) in arrivingIndex <==> t == to && u in users
    {
    }
    forall t, u
      ensures (t, u) in g.subs <==> t != from && ((t, u) in f.subs || (t == to && (from, u) in f.subs))
      ensures (u, t) in g.index <==> t != from && ((t, u) in f.subs || (t == to && (from, u) in f.subs))
    {
      assert (t, u) in g.subs <==> (t, u) in f.subs.Keys + arriving && t != from;
    }
  }

  lemma TagEntriesAre(tags: seq<Tag>, textId: Id)
    ensures forall tag, t :: (tag, t) in TagEntries(tags, textId) <==> t == textId && tag in tags
  {
  }

  lemma NewTextTags(l: Library, id: Id, text: Text, roundId: Id, number: nat, now: int, tagIndex: set<(Tag,
      Id)>, f: Follows, issued: set<Id>)
    requires PointersOk(l) && LibraryIdsOk(l, issued) && FreshPair(issued, id, roundId)
    requires TagsOk(l, tagIndex) && OtherIdsOk(f, tagIndex, issued)
    ensures TagsOk(NewText(l, id, text, roundId, number, now), tagIndex + TagEntries(text.tags, id))
  {
    TagEntriesAre(text.tags, id);
    hide TagEntries;
  }

  lemma ForkedTags(l: Library, textId: Id, fork: Text, d: CloseDraws, tagIndex: set<(Tag, Id)>, f: Follows,
      issued: set<Id>)
    requires PointersOk(l) && LibraryIdsOk(l, issued) && Forks(l, textId, fork, d, issued)
    requires TagsOk(l, tagIndex) && OtherIdsOk(f, tagIndex, issued) && fork.tags == l.texts[textId].tags
    ensures TagsOk(ForkedLibrary(l, textId, fork, d), tagIndex - TagEntries(fork.tags, textId)
      + TagEntries(fork.tags, d.text))
  {
    TagEntriesAre(fork.tags, textId);
    TagEntriesAre(fork.tags, d.text);
    hide TagEntries;
  }
}
