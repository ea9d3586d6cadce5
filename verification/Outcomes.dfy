/**
 * What each call on the repository amounts to, seen from outside: what it adds, changes and removes, and that
 * it touches nothing else (api/queel/repository.go).
 */
module Outcomes {
  import opened Wrappers
  import opened Bytes
  import opened Splicing
  import opened SpliceLaws
  import opened Deliberation
  import opened DeliberationSteps
  import opened DeliberationRuns

  // ---- Maps before and after ----

  /** One key more, and the others as they were. */
  ghost predicate Gains<K, V>(m: map<K, V>, m': map<K, V>, k: K, v: V)
  {
    k !in m && m' == m[k := v]
  }

  /** One key's value changed, and the others as they were. */
  ghost predicate Changes<K, V>(m: map<K, V>, m': map<K, V>, k: K, v: V)
  {
    k in m && m' == m[k := v]
  }

  /** Some keys removed, and the others as they were. */
  ghost predicate Loses<K(!new), V>(m: map<K, V>, m': map<K, V>, gone: K -> bool)
  {
    && (forall k :: k in m' <==> k in m && !gone(k))
    && forall k :: k in m' ==> m'[k] == m[k]
  }

  /** Records kept under a text, and under a user. */
  function OnText(textId: Id): ((Id, Id)) -> bool
  {
    (k: (Id, Id)) => k.0 == textId
  }

  function ByUser(user: Id): ((Id, Id)) -> bool
  {
    (k: (Id, Id)) => k.1 == user
  }

  function ChosenBy(user: Id): ((Id, Id, Id)) -> bool
  {
    (c: (Id, Id, Id)) => c.2 == user
  }

  // ---- A new text ----

  ghost predicate OpensRound(l: Library, l': Library, textId: Id, roundId: Id, number: nat, now: int)
  {
    && roundId !in l.rounds && roundId in l'.rounds && IsNewRound(l'.rounds[roundId], textId, number, now)
    && CurrentRound(l', textId) == Some(roundId)
  }

  predicate IsNewRound(round: Round, textId: Id, number: nat, now: int)
  {
    && round.textId == textId && round.number == number && round.open && round.slots == []
    && round.createdAt == now && round.closedAt.None? && round.closeAt.None? && round.closeBy.None?
  }

  /** Which round is open changes for these texts alone. */
  ghost predicate SameRounds(l: Library, l': Library, other: Id -> bool)
  {
    forall t :: !other(t) ==> CurrentRound(l', t) == CurrentRound(l, t)
  }

  /** A text with these fields, its first round open and empty, its author following it, its labels listed. */
  ghost predicate TextCreated(s: Store, s': Store, id: Id, roundId: Id, title: string, content: string, author: Id,
      tags: seq<Tag>, now: int, openedAt: int)
  {
    && id in s'.library.texts && Gains(s.library.texts, s'.library.texts, id, s'.library.texts[id])
    && IsNewText(s'.library.texts[id], title, content, author, tags, now)
    && OpensRound(s.library, s'.library, id, roundId, 1, openedAt)
    && Gains(s.library.rounds, s'.library.rounds, roundId, s'.library.rounds[roundId])
    && SameRounds(s.library, s'.library, t => t == id)
    && Gains(s.library.roundCount, s'.library.roundCount, id, 1)
    && s'.library.supersededBy == s.library.supersededBy
    && s'.ballots == s.ballots
    && s'.follows.subs == s.follows.subs[(id, author) := now]
    && forall tag, t :: (tag, t) in s'.tagIndex <==> (tag, t) in s.tagIndex || (t == id && tag in tags)
  }

  predicate IsNewText(text: Text, title: string, content: string, author: Id, tags: seq<Tag>, now: int)
  {
    && text.title == title && text.content == content && text.tags == tags && text.createdBy == author
    && text.createdAt == now && text.previous.None? && !text.finalized
  }

  /** New ids are not in use, and a text's current round exists. */
  lemma NewIds(l: Library, issued: set<Id>, id: Id, roundId: Id)
    requires LibraryOk(l, issued) && id !in issued && roundId !in issued
    ensures id !in l.texts && id !in l.supersededBy && id !in l.roundCount && roundId !in l.rounds
    ensures forall t :: t in l.currentRound ==> l.currentRound[t] in l.rounds && t in l.texts
  {
    hide SlotsOk;
    hide RoundIndexOk;
    hide ChainOk;
    hide RoundsOk;
  }

  lemma CreatesText(s: Store, id: Id, roundId: Id, title: string, content: string, author: Id,
      tags: seq<Tag>, now: int, openedAt: int)
    requires Invariant(s) && FreshPair(s.issued, id, roundId)
    ensures TextCreated(s, AfterCreateText(s, id, roundId, title, content, author, tags, now, openedAt),
      id, roundId, title, content, author, tags, now, openedAt)
  {
    hide LibraryOk;
    hide BallotsOk;
    hide ListingsOk;
    TagEntriesAre(tags, id);
    hide TagEntries;
    NewIds(s.library, s.issued, id, roundId);
  }

  // ---- A proposal ----

  /** Why a proposal is refused, if it is. */
  ghost function Refusal(s: Store, textId: Id, start: int, end: int): Option<RepositoryError>
  {
    if textId !in s.library.texts then Some(NotFound)
    else if !(0 <= start < end <= |s.library.texts[textId].content|) then Some(InvalidRange)
    else if textId in s.library.supersededBy then Some(TextSuperseded(s.library.supersededBy[textId]))
    else if CurrentRound(s.library, textId).Some? && Clashes(OpenSlots(s.library, textId), start, end)
    then Some(OverlappingSlot)
    else None
  }

  /** A proposal is refused for just these reasons, and otherwise added as given, unless the store fails. */
  ghost predicate ProposalMeans(s: Store, s': Store, textId: Id, start: int, end: int, content: string, author: Id,
      d: Draws, batches: nat, r: Result<Id, RepositoryError>)
  {
    match Refusal(s, textId, start, end)
    case Some(e) => r == Err(e) && s' == s
    case None =>
      if batches < 2 then r == Err(StoreFailed)
      else r.Ok? && EditProposed(s, s', textId, start, end, content, author, d, r.value)
  }

  lemma RefusalIs(s: Store, textId: Id, start: int, end: int)
    requires Invariant(s)
    ensures textId !in s.library.texts ==> Refusal(s, textId, start, end) == Some(NotFound)
    ensures textId in s.library.texts && !(0 <= start < end <= |s.library.texts[textId].content|) ==>
      Refusal(s, textId, start, end) == Some(InvalidRange)
    ensures textId in s.library.texts && 0 <= start < end <= |s.library.texts[textId].content| ==>
      if textId in s.library.supersededBy then
        Refusal(s, textId, start, end) == Some(TextSuperseded(s.library.supersededBy[textId]))
      else CurrentRound(s.library, textId).Some? ==>
        Refusal(s, textId, start, end) ==
          match ResolveSlot(OpenSlots(s.library, textId), start, end)
          case Err(e) => Some(e)
          case Ok(_) => None
  {
    hide Invariant;
    hide ResolveSlot;
    hide Clashes;
    if textId in s.library.texts && 0 <= start < end <= |s.library.texts[textId].content|
      && CurrentRound(s.library, textId).Some?
    {
      RefusesExactly(s, textId, start, end);
      hide ResolveSlot;
      OnlyOverlaps(OpenSlots(s.library, textId), start, end);
    }
  }

  predicate IsRange(slot: Slot, start: int, end: int)
  {
    slot.start == start && slot.end == end
  }

  /** A range that is no slot's own but has runes of one. */
  predicate Clashes(slots: seq<Slot>, start: int, end: int)
  {
    && (forall i :: 0 <= i < |slots| ==> !IsRange(slots[i], start, end))
    && exists i :: 0 <= i < |slots| && slots[i].start < end && start < slots[i].end
  }

  /** The fragment is added as given, in an open slot with just this range, and nothing before it changes. */
  ghost predicate EditProposed(s: Store, s': Store, textId: Id, start: int, end: int, content: string, author: Id,
      d: Draws, fragment: Id)
  {
    && fragment !in s.ballots.fragments && fragment in s'.ballots.fragments
    && s'.ballots.fragments[fragment].textId == textId && s'.ballots.fragments[fragment].content == content
    && s'.ballots.fragments[fragment].authorId == author && s'.ballots.fragments[fragment].createdAt == d.addedAt
    && SlotInPlace(s, s', textId, start, end, s'.ballots.fragments[fragment].slotId)
    && (forall f :: f in s.ballots.fragments ==>
          f in s'.ballots.fragments && s'.ballots.fragments[f] == s.ballots.fragments[f])
    && (forall f :: f in s'.ballots.fragments && f !in s.ballots.fragments && f != fragment ==>
          && s'.library != s.library && s'.ballots.fragments[f].slotId == s'.ballots.fragments[fragment].slotId
          && IsBaseline(s, s'.ballots.fragments[f], textId, start, end, d.seededAt))
    && Elsewhere(s, s', textId)
  }

  ghost predicate IsBaseline(s: Store, f: Fragment, textId: Id, start: int, end: int, now: int)
  {
    && textId in s.library.texts && 0 <= start <= end <= |s.library.texts[textId].content|
    && f.textId == textId && f.authorId == SEED && f.createdAt == now
    && f.content == s.library.texts[textId].content[start..end]
  }

  /** A slot with this range is open: it was so before, or it is the one slot more. */
  ghost predicate SlotInPlace(s: Store, s': Store, textId: Id, start: int, end: int, slotId: Id)
  {
    && CurrentRound(s.library, textId).Some? && CurrentRound(s'.library, textId) == CurrentRound(s.library, textId)
    && var slots, slots' := OpenSlots(s.library, textId), OpenSlots(s'.library, textId);
       && (exists i :: 0 <= i < |slots'| && slots'[i].id == slotId && IsRange(slots'[i], start, end))
       && slots <= slots' && |slots'| <= |slots| + 1
       && (forall i :: |slots| <= i < |slots'| ==>
             slots'[i].round == s.library.rounds[CurrentRound(s.library, textId).value].number)
       && (s'.library == s.library <==> exists i :: 0 <= i < |slots| && IsRange(slots[i], start, end))
  }

  /** Texts, other rounds, votes, followers and labels are as they were. */
  ghost predicate Elsewhere(s: Store, s': Store, textId: Id)
  {
    && s'.library.texts == s.library.texts && s'.library.supersededBy == s.library.supersededBy
    && s'.library.currentRound == s.library.currentRound && s'.library.rounds.Keys == s.library.rounds.Keys
    && (forall r :: r in s.library.rounds && Some(r) != CurrentRound(s.library, textId) ==>
          s'.library.rounds[r] == s.library.rounds[r])
    && s'.ballots.votes == s.ballots.votes && s'.ballots.choices == s.ballots.choices
    && s'.follows == s.follows && s'.tagIndex == s.tagIndex
  }

  lemma RefusesExactly(s: Store, textId: Id, start: int, end: int)
    requires Invariant(s) && textId in s.library.texts && 0 <= start < end <= |s.library.texts[textId].content|
    requires CurrentRound(s.library, textId).Some?
    ensures var slots := OpenSlots(s.library, textId);
            && (ResolveSlot(slots, start, end) == Err(OverlappingSlot) <==> Clashes(slots, start, end))
            && (ResolveSlot(slots, start, end) == Ok(None) <==>
                  forall i :: 0 <= i < |slots| ==> !(slots[i].start < end && start < slots[i].end))
            && (forall id :: ResolveSlot(slots, start, end) == Ok(Some(id)) ==>
                  exists i :: 0 <= i < |slots| && slots[i].id == id && IsRange(slots[i], start, end))
  {
    hide Invariant;
    OpenSlotsFit(s, textId);
    ResolvesAs(OpenSlots(s.library, textId), |s.library.texts[textId].content|, start, end);
  }

  lemma ResolvesAs(slots: seq<Slot>, length: nat, start: int, end: int)
    requires SlotsFit(slots, length) && start < end
    ensures ResolveSlot(slots, start, end) == Err(OverlappingSlot) <==> Clashes(slots, start, end)
    ensures ResolveSlot(slots, start, end) == Ok(None) <==>
      forall i :: 0 <= i < |slots| ==> !(slots[i].start < end && start < slots[i].end)
    ensures forall id :: ResolveSlot(slots, start, end) == Ok(Some(id)) ==>
      exists i :: 0 <= i < |slots| && slots[i].id == id && IsRange(slots[i], start, end)
  {
    ResolvesExactly(slots, length, start, end);
    OnlyOverlaps(slots, start, end);
    hide ResolveSlot;
    hide SlotsFit;
    assert forall i :: 0 <= i < |slots| ==>
      (Overlaps(slots[i], start, end) <==> slots[i].start < end && start < slots[i].end);
    forall i | 0 <= i < |slots| && IsRange(slots[i], start, end)
      ensures ResolveSlot(slots, start, end) == Ok(Some(slots[i].id))
    {
    }
    if id :| ResolveSlot(slots, start, end) == Ok(Some(id)) {
      var i :| 0 <= i < |slots| && slots[i].start == start && slots[i].end == end && slots[i].id == id;
      assert IsRange(slots[i], start, end);
    }
  }

  lemma {:induction false} OnlyOverlaps(slots: seq<Slot>, start: int, end: int)
    ensures ResolveSlot(slots, start, end).Err? ==> ResolveSlot(slots, start, end).error == OverlappingSlot
  {
    if slots != [] {
      OnlyOverlaps(slots[1..], start, end);
    }
  }

  lemma OpenSlotsFit(s: Store, textId: Id)
    requires Invariant(s) && CurrentRound(s.library, textId).Some?
    ensures textId in s.library.texts && SlotsFit(OpenSlots(s.library, textId), |s.library.texts[textId].content|)
  {
    hide BallotsOk;
    hide ListingsOk;
    hide RoundsOk;
    hide RoundIndexOk;
    hide ChainOk;
    hide SlotsFit;
    assert textId in s.library.currentRound;
    assert s.library.rounds[s.library.currentRound[textId]].textId == textId;
  }

  /** A proposal for the range of an open slot. */
  lemma ProposesInSlot(s: Store, textId: Id, start: int, end: int, content: string, author: Id, d: Draws, slotId: Id)
    requires Invariant(s) && FreshDraws(s, d)
    requires CurrentRound(s.library, textId).Some?
    requires ResolveSlot(OpenSlots(s.library, textId), start, end) == Ok(Some(slotId))
    ensures EditProposed(s, FragmentAdded(s, d.fragment, Fragment(textId, slotId, content, author, d.addedAt)),
      textId, start, end, content, author, d, d.fragment)
  {
    hide Invariant;
    hide ResolveSlot;
    OpenSlotsFit(s, textId);
    FragmentIsNew(s, d.fragment);
    ResolvesToSlot(OpenSlots(s.library, textId), start, end, slotId);
    var i :| 0 <= i < |OpenSlots(s.library, textId)| && OpenSlots(s.library, textId)[i].id == slotId
      && OpenSlots(s.library, textId)[i].start == start && OpenSlots(s.library, textId)[i].end == end;
    assert IsRange(OpenSlots(s.library, textId)[i], start, end);
    var s' := FragmentAdded(s, d.fragment, Fragment(textId, slotId, content, author, d.addedAt));
    assert OpenSlots(s'.library, textId) == OpenSlots(s.library, textId);
  }

  lemma FragmentIsNew(s: Store, id: Id)
    requires Invariant(s) && id !in s.issued
    ensures id !in s.ballots.fragments
  {
    hide LibraryOk;
    hide ListingsOk;
    hide SeedsOk;
    hide FragmentsOk;
    hide VotesOk;
  }

  /** A proposal that opens a slot. */
  lemma ProposesInNewSlot(s: Store, textId: Id, start: int, end: int, content: string, author: Id, d: Draws)
    requires Invariant(s) && FreshDraws(s, d) && CurrentRound(s.library, textId).Some? && textId in s.library.texts
    requires 0 <= start < end <= |s.library.texts[textId].content|
    requires ResolveSlot(OpenSlots(s.library, textId), start, end) == Ok(None)
    ensures var roundId := CurrentRound(s.library, textId).value;
            EditProposed(s, FragmentAdded(NewSlot(s, textId, roundId, start, end, d), d.fragment,
              Fragment(textId, d.slot, content, author, d.addedAt)),
              textId, start, end, content, author, d, d.fragment)
  {
    hide Invariant;
    hide ResolveSlot;
    FragmentIsNew(s, d.fragment);
    FragmentIsNew(s, d.seed);
    RefusesExactly(s, textId, start, end);
    var roundId := CurrentRound(s.library, textId).value;
    var slots := OpenSlots(s.library, textId);
    var s' := FragmentAdded(NewSlot(s, textId, roundId, start, end, d), d.fragment,
      Fragment(textId, d.slot, content, author, d.addedAt));
    var slot := Slot(d.slot, start, end, s.library.rounds[roundId].number);
    assert OpenSlots(s'.library, textId) == slots + [slot];
    assert (slots + [slot])[|slots|] == slot && IsRange(slot, start, end);
    assert s'.library != s.library by {
      assert |slots + [slot]| != |slots|;
    }
  }

  // ---- Votes ----

  /** A fragment other than this one, proposed for the same slot. */
  predicate Rivals(b: Ballots, f: Id, g: Id)
  {
    && f in b.fragments && g in b.fragments && f != g
    && b.fragments[f].textId == b.fragments[g].textId && b.fragments[f].slotId == b.fragments[g].slotId
  }

  /** The user's vote for the fragment, and no vote of the user for a rival; every other vote as it was. */
  ghost predicate VoteCast(b: Ballots, b': Ballots, fragment: Id, user: Id, now: int)
  {
    && b'.fragments == b.fragments && b'.fragmentIndex == b.fragmentIndex
    && (fragment, user) in b'.votes && b'.votes[(fragment, user)] == now
    && (forall f :: Rivals(b, fragment, f) ==> (f, user) !in b'.votes)
    && (forall f, u {:trigger (f, u) in b'.votes} ::
          (u != user || (f != fragment && !Rivals(b, fragment, f))) ==>
            ((f, u) in b'.votes <==> (f, u) in b.votes)
            && ((f, u) in b.votes ==> b'.votes[(f, u)] == b.votes[(f, u)]))
  }

  lemma CastsVote(b: Ballots, fragment: Id, user: Id, now: int)
    requires VotesOk(b) && fragment in b.fragments
    ensures VoteCast(b, WithVote(b, fragment, user, now), fragment, user, now)
  {
    var b' := WithVote(b, fragment, user, now);
    var mine := ChoiceKey(b.fragments[fragment], user);
    forall f | Rivals(b, fragment, f)
      ensures (f, user) !in b'.votes
    {
      assert ChoiceKey(b.fragments[f], user) == mine;
    }
    forall f, u | u != user || (f != fragment && !Rivals(b, fragment, f))
      ensures (f, u) in b'.votes <==> (f, u) in b.votes
      ensures (f, u) in b.votes ==> b'.votes[(f, u)] == b.votes[(f, u)]
    {
      if (f, u) in b.votes && u == user {
        assert ChoiceKey(b.fragments[f], user) != mine;
      }
    }
  }

  /** All of a user's votes and choices go, nobody else's. */
  ghost predicate VotesDropped(b: Ballots, b': Ballots, user: Id)
  {
    && b'.fragments == b.fragments && b'.fragmentIndex == b.fragmentIndex
    && Loses(b.votes, b'.votes, ByUser(user))
    && Loses(b.choices, b'.choices, ChosenBy(user))
  }

  lemma DropsVotes(b: Ballots, user: Id)
    ensures VotesDropped(b, WithoutVoter(b, user), user)
  {
  }

  // ---- What a departing user proposed or created ----

  /** Just these fragments go, with the votes for them and the choices of them. */
  ghost predicate FragmentsDropped(b: Ballots, b': Ballots, gone: Id -> bool)
  {
    && Loses(b.fragments, b'.fragments, gone)
    && Loses(b.votes, b'.votes, (k: (Id, Id)) => gone(k.0))
    && (forall c :: c in b'.choices <==> c in b.choices && !gone(b.choices[c]))
    && forall c :: c in b'.choices ==> b'.choices[c] == b.choices[c]
  }

  function AuthorIs(b: Ballots, user: Id): Id -> bool
  {
    f => f in b.fragments && b.fragments[f].authorId == user
  }

  lemma DropsFragmentsBy(b: Ballots, user: Id)
    ensures FragmentsDropped(b, WithoutFragments(b, FragmentsBy(b, user)), AuthorIs(b, user))
  {
  }

  /** Just these texts go, with their rounds and all that competed or was voted on them. */
  ghost predicate TextsDropped(s: Store, s': Store, gone: Id -> bool)
  {
    && LibraryDropped(s.library, s'.library, gone)
    && FragmentsDropped(s.ballots, s'.ballots, TextIs(s.ballots, gone))
  }

  ghost predicate LibraryDropped(l: Library, l': Library, gone: Id -> bool)
  {
    && Loses(l.texts, l'.texts, gone)
    && Loses(l.rounds, l'.rounds, (r: Id) => r in l.rounds && gone(l.rounds[r].textId))
    && Loses(l.currentRound, l'.currentRound, gone)
    && Loses(l.roundCount, l'.roundCount, gone)
    && Loses(l.supersededBy, l'.supersededBy, gone)
  }

  function TextIs(b: Ballots, gone: Id -> bool): Id -> bool
  {
    f => f in b.fragments && gone(b.fragments[f].textId)
  }

  function Among(gone: set<Id>): Id -> bool
  {
    t => t in gone
  }

  lemma DropsLibrary(l: Library, gone: set<Id>)
    ensures LibraryDropped(l, WithoutTexts(l, gone), Among(gone))
  {
  }

  lemma DropsTexts(s: Store, gone: set<Id>)
    requires Invariant(s)
    ensures TextsDropped(s, s.(library := WithoutTexts(s.library, gone), ballots := WithoutBallotsOn(s.ballots, gone)),
      Among(gone))
  {
    hide LibraryOk;
    hide ListingsOk;
    hide SeedsOk;
    hide FragmentsOk;
    hide BallotIdsOk;
    hide WithoutBallotsOn;
    hide FragmentsDropped;
    hide WithoutTexts;
    hide LibraryDropped;
    hide Among;
    DropsLibrary(s.library, gone);
    DropsBallots(s.library.texts.Keys, s.ballots, gone);
  }

  lemma DropsBallots(texts: set<Id>, b: Ballots, gone: set<Id>)
    requires FragmentsOk(texts, b) && VotesOk(b)
    ensures FragmentsDropped(b, WithoutBallotsOn(b, gone), TextIs(b, Among(gone)))
  {
    FragmentsOnAre(texts, b, gone);
    hide FragmentsOn;
    hide FragmentsOk;
    var b' := WithoutBallotsOn(b, gone);
    forall c
      ensures c in b'.choices <==> c in b.choices && !TextIs(b, Among(gone))(b.choices[c])
    {
      if c in b.choices {
        assert ChoiceKey(b.fragments[b.choices[c]], c.2) == c;
      }
    }
  }

  /** One text goes with all that was kept about it, labels and followers included. */
  ghost predicate TextDeleted(s: Store, s': Store, textId: Id)
  {
    && TextsDropped(s, s', Among({textId}))
    && Loses(s.follows.subs, s'.follows.subs, OnText(textId))
    && forall tag, t :: (tag, t) in s'.tagIndex <==> (tag, t) in s.tagIndex && t != textId
  }

  lemma DeletesText(s: Store, textId: Id)
    requires Invariant(s) && textId in s.library.texts
    ensures TextDeleted(s, AfterDeleteText(s, textId).value, textId)
  {
    hide LibraryOk;
    hide BallotsOk;
    hide TagsOk;
    hide FollowsOk;
    hide OtherIdsOk;
    hide TagEntries;
    hide WithoutFollowed;
    hide WithoutTexts;
    hide WithoutBallotsOn;
    hide LibraryDropped;
    hide FragmentsDropped;
    hide Loses;
    hide Among;
    hide OnText;
    DropsTexts(s, {textId});
    ForgetsText(s.follows, s.tagIndex, s.library, textId);
  }

  // ---- Followers ----

  ghost predicate OnlyThisPair(f: Follows, f': Follows, user: Id, textId: Id)
  {
    && (forall t, u :: (t != textId || u != user) ==> ((t, u) in f'.subs <==> (t, u) in f.subs))
    && forall t, u :: (t != textId || u != user) && (t, u) in f.subs ==> f'.subs[(t, u)] == f.subs[(t, u)]
  }

  lemma OnePairChanges(f: Follows, user: Id, textId: Id, now: int)
    ensures OnlyThisPair(f, Following(f, user, textId, now), user, textId)
    ensures (textId, user) in Following(f, user, textId, now).subs
      && Following(f, user, textId, now).subs[(textId, user)] == now
    ensures OnlyThisPair(f, Follows(f.subs - {(textId, user)}, f.index - {(user, textId)}), user, textId)
  {
  }

  lemma ForgetsFollower(f: Follows, user: Id)
    requires FollowsOk(f)
    ensures Loses(f.subs, WithoutFollower(f, user).subs, ByUser(user))
  {
    forall k | k in f.subs
      ensures (k.1, k.0) in f.index
    {
      assert (k.0, k.1) in f.subs;
    }
  }

  lemma ForgetsText(f: Follows, tagIndex: set<(Tag, Id)>, l: Library, textId: Id)
    requires TagsOk(l, tagIndex) && textId in l.texts
    ensures Loses(f.subs, WithoutFollowed(f, textId).subs, OnText(textId))
    ensures forall tag, t :: (tag, t) in tagIndex - TagEntries(l.texts[textId].tags, textId) <==>
      (tag, t) in tagIndex && t != textId
  {
    TagEntriesAre(l.texts[textId].tags, textId);
  }

  // ---- Closing a round ----

  /** Just the open round of the text gets a date and who set it. */
  ghost predicate CloseDated(l: Library, l': Library, textId: Id, closeAt: int, user: Id, roundId: Id)
  {
    && CurrentRound(l, textId) == Some(roundId) && roundId in l'.rounds
    && IsDated(l.rounds[roundId], l'.rounds[roundId], closeAt, user)
    && Changes(l.rounds, l'.rounds, roundId, l'.rounds[roundId])
    && l'.texts == l.texts && l'.currentRound == l.currentRound && l'.roundCount == l.roundCount
    && l'.supersededBy == l.supersededBy
  }

  predicate IsDated(round: Round, round': Round, closeAt: int, user: Id)
  {
    && round'.closeAt == Some(closeAt) && round'.closeBy == Some(user)
    && round'.textId == round.textId && round'.number == round.number && round'.open == round.open
    && round'.slots == round.slots && round'.createdAt == round.createdAt && round'.closedAt == round.closedAt
  }

  lemma DatesClose(l: Library, textId: Id, closeAt: int, user: Id)
    requires CurrentRound(l, textId).Some?
    ensures var roundId := CurrentRound(l, textId).value;
            CloseDated(l, Scheduled(l, roundId, closeAt, user), textId, closeAt, user, roundId)
  {
  }

  /** Each slot went to the fragment that wins it, with the votes that fragment has. */
  ghost predicate SlotsSettled(b: Ballots, textId: Id, slots: seq<Slot>, results: seq<SlotResult>)
  {
    && |results| == |slots|
    && forall i :: 0 <= i < |slots| ==>
         && results[i].slotId == slots[i].id && Wins(b, textId, slots[i].id, results[i].fragment)
         && results[i].votes == |Voters(b, results[i].fragment)|
  }

  /** The contents of the fragments that won. */
  function Winnings(b: Ballots, results: seq<SlotResult>): seq<string>
    requires forall i :: 0 <= i < |results| ==> results[i].fragment in b.fragments
  {
    seq(|results|, i requires 0 <= i < |results| => b.fragments[results[i].fragment].content)
  }

  /** The next version of a text: the winners in the ranges of their slots and all else as it was. */
  ghost predicate IsSettled(s: Store, textId: Id, results: seq<SlotResult>, fork: Text, now: int)
  {
    && textId in s.library.texts && CurrentRound(s.library, textId).Some?
    && var text, slots := s.library.texts[textId], OpenSlots(s.library, textId);
       && SlotsSettled(s.ballots, textId, slots, results)
       && Replaces(text.content, slots, Winnings(s.ballots, results), fork.content)
       && fork.title == text.title && fork.tags == text.tags && fork.createdBy == text.createdBy
       && fork.previous == Some(textId) && fork.finalized && fork.createdAt == now
  }

  /** The fork takes the old text's place: superseding it, with the next round, its followers and its labels. */
  ghost predicate TakesOver(s: Store, s': Store, textId: Id, d: CloseDraws, fork: Text)
  {
    && textId in s.library.texts && CurrentRound(s.library, textId).Some?
    && var closing := CurrentRound(s.library, textId).value;
       && Gains(s.library.texts, s'.library.texts, d.text, fork)
       && Gains(s.library.supersededBy, s'.library.supersededBy, textId, d.text)
       && Gains(s.library.roundCount, s'.library.roundCount, d.text, s.library.rounds[closing].number + 1)
       && OpensRound(s.library, s'.library, d.text, d.round, s.library.rounds[closing].number + 1, d.openedAt)
       && s'.library.rounds.Keys == s.library.rounds.Keys + {d.round}
       && RoundShut(s.library.rounds[closing], s'.library.rounds[closing], d.closedAt)
       && (forall r :: r in s.library.rounds && r != closing ==> s'.library.rounds[r] == s.library.rounds[r])
       && CurrentRound(s'.library, textId).None?
       && SameRounds(s.library, s'.library, t => t == textId || t == d.text)
       && s'.ballots == s.ballots
       && (forall t, u :: (t, u) in s'.follows.subs <==>
             t != textId && ((t, u) in s.follows.subs || (t == d.text && (textId, u) in s.follows.subs)))
       && (forall t, u :: (t, u) in s'.follows.subs ==>
             s'.follows.subs[(t, u)] == if (t, u) in s.follows.subs then s.follows.subs[(t, u)] else d.closedAt)
       && forall tag, t :: (tag, t) in s'.tagIndex <==>
            (t != textId && (tag, t) in s.tagIndex) || (t == d.text && tag in fork.tags)
  }

  predicate RoundShut(round: Round, round': Round, now: int)
  {
    && !round'.open && round'.closedAt == Some(now)
    && round'.textId == round.textId && round'.number == round.number && round'.slots == round.slots
    && round'.createdAt == round.createdAt && round'.closeAt == round.closeAt && round'.closeBy == round.closeBy
  }

  ghost predicate RoundClosed(s: Store, s': Store, textId: Id, d: CloseDraws, outcome: RoundOutcome)
  {
    && outcome.textId == d.text
    && IsSettled(s, textId, outcome.slots, outcome.text, d.forkedAt) && TakesOver(s, s', textId, d, outcome.text)
  }

  /** Closing a round with these winners is what the outcome says. */
  lemma Closes(s: Store, textId: Id, results: seq<SlotResult>, d: CloseDraws)
    requires Invariant(s) && Closable(s, textId) && FreshPair(s.issued, d.text, d.round)
    requires SlotsSettled(s.ballots, textId, OpenSlots(s.library, textId), results)
    ensures RoundClosed(s, AfterClose(s, textId, d), textId, d, RoundOutcome(d.text, ForkOf(s, textId, d), results))
  {
    hide Invariant;
    hide Closable;
    hide IsSettled;
    hide TakesOver;
    hide AfterClose;
    hide ForkOf;
    hide SlotsSettled;
    Settles(s, textId, results, d);
    ForkTakesOver(s, textId, d);
  }

  /** What splicing the winners in comes to. */
  lemma Settles(s: Store, textId: Id, results: seq<SlotResult>, d: CloseDraws)
    requires Invariant(s) && Closable(s, textId)
    requires SlotsSettled(s.ballots, textId, OpenSlots(s.library, textId), results)
    ensures IsSettled(s, textId, results, ForkOf(s, textId, d), d.forkedAt)
  {
    hide LibraryOk;
    hide ListingsOk;
    hide SeedsOk;
    hide FragmentsOk;
    hide VotesOk;
    hide BallotIdsOk;
    hide SlotsFit;
    hide Replaces;
    var slots := OpenSlots(s.library, textId);
    WinningsAre(s.library.texts.Keys, s.ballots, textId, slots, results);
    hide Decidable;
    hide Winners;
    hide SlotsSettled;
    hide Winnings;
    hide Spliced;
    SplicedReplaces(s.library.texts[textId].content, slots, Winners(s.ballots, textId, slots),
      Winnings(s.ballots, results));
  }

  lemma WinningsAre(texts: set<Id>, b: Ballots, textId: Id, slots: seq<Slot>, results: seq<SlotResult>)
    requires FragmentsOk(texts, b) && Decidable(b, textId, slots) && SlotsSettled(b, textId, slots, results)
    ensures forall i :: 0 <= i < |results| ==> results[i].fragment in b.fragments
    ensures |Winnings(b, results)| == |slots|
    ensures forall i :: 0 <= i < |slots| ==> Winnings(b, results)[i] == Winners(b, textId, slots)[slots[i].id]
  {
    hide FragmentsOk;
    hide Winner;
    forall i | 0 <= i < |slots|
      ensures results[i].fragment in b.fragments && results[i].fragment == Winner(b, textId, slots[i].id)
    {
      WinsExactly(texts, b, textId, slots[i].id, results[i].fragment);
    }
  }

  lemma FollowersMove(f: Follows, from: Id, to: Id, now: int)
    requires from != to && FollowsOk(f)
    ensures forall t, u :: (t, u) in MovedFollowers(f, from, to, now).subs <==>
      t != from && ((t, u) in f.subs || (t == to && (from, u) in f.subs))
    ensures var g := MovedFollowers(f, from, to, now);
            forall t, u :: (t, u) in g.subs ==>
              g.subs[(t, u)] == if t == to && (from, u) in f.subs then now else f.subs[(t, u)]
  {
    MovedMembers(f, from, to, now);
    SubscribersAre(f, from);
  }

  lemma NobodyFollowsYet(f: Follows, tagIndex: set<(Tag, Id)>, issued: set<Id>, t: Id)
    requires OtherIdsOk(f, tagIndex, issued) && t !in issued
    ensures forall u :: (t, u) !in f.subs
  {
  }

  lemma LabelsMove(l: Library, tagIndex: set<(Tag, Id)>, from: Id, to: Id)
    requires TagsOk(l, tagIndex) && from in l.texts && from != to
    ensures var tags := l.texts[from].tags;
            forall tag, t :: (tag, t) in tagIndex - TagEntries(tags, from) + TagEntries(tags, to) <==>
              (t != from && (tag, t) in tagIndex) || (t == to && tag in tags)
  {
    TagEntriesAre(l.texts[from].tags, from);
    TagEntriesAre(l.texts[from].tags, to);
  }

  lemma ForkTakesOver(s: Store, textId: Id, d: CloseDraws)
    requires Invariant(s) && Closable(s, textId) && FreshPair(s.issued, d.text, d.round)
    ensures TakesOver(s, AfterClose(s, textId, d), textId, d, ForkOf(s, textId, d))
  {
    hide LibraryOk;
    hide BallotsOk;
    hide TagsOk;
    hide FollowsOk;
    hide OtherIdsOk;
    hide MovedFollowers;
    hide ForkedLibrary;
    hide TagEntries;
    hide Settled;
    hide SlotsFit;
    hide Decidable;
    ForkedPlace(s.library, textId, ForkOf(s, textId, d), d, s.issued);
    FollowersMove(s.follows, textId, d.text, d.closedAt);
    NobodyFollowsYet(s.follows, s.tagIndex, s.issued, d.text);
    LabelsMove(s.library, s.tagIndex, textId, d.text);
    hide OpensRound;
    hide Gains;
    hide SameRounds;
  }

  lemma ForkedPlace(l: Library, textId: Id, fork: Text, d: CloseDraws, issued: set<Id>)
    requires LibraryOk(l, issued) && FreshPair(issued, d.text, d.round) && CurrentRound(l, textId).Some?
    ensures textId != d.text
    ensures var l', closing := ForkedLibrary(l, textId, fork, d), CurrentRound(l, textId).value;
            && Gains(l.texts, l'.texts, d.text, fork) && Gains(l.supersededBy, l'.supersededBy, textId, d.text)
            && Gains(l.roundCount, l'.roundCount, d.text, l.rounds[closing].number + 1)
            && OpensRound(l, l', d.text, d.round, l.rounds[closing].number + 1, d.openedAt)
            && l'.rounds.Keys == l.rounds.Keys + {d.round}
            && RoundShut(l.rounds[closing], l'.rounds[closing], d.closedAt)
            && (forall r :: r in l.rounds && r != closing ==> l'.rounds[r] == l.rounds[r])
            && CurrentRound(l', textId).None?
            && SameRounds(l, l', t => t == textId || t == d.text)
  {
    hide LibraryOk;
    NewIds(l, issued, d.text, d.round);
    CurrentIsLive(l, issued, textId);
    RoundsOfFork(l, textId, fork, d);
    hide SameRounds;
    hide RoundShut;
    hide IsNewRound;
  }

  lemma RoundsOfFork(l: Library, textId: Id, fork: Text, d: CloseDraws)
    requires CurrentRound(l, textId).Some? && textId != d.text && d.round !in l.rounds
    requires forall t :: t in l.currentRound ==> l.currentRound[t] in l.rounds && t in l.texts
    ensures var l', closing := ForkedLibrary(l, textId, fork, d), CurrentRound(l, textId).value;
            && closing in l.rounds && d.round in l'.rounds && closing in l'.rounds
            && IsNewRound(l'.rounds[d.round], d.text, l.rounds[closing].number + 1, d.openedAt)
            && CurrentRound(l', d.text) == Some(d.round) && CurrentRound(l', textId).None?
            && l'.rounds.Keys == l.rounds.Keys + {d.round}
            && RoundShut(l.rounds[closing], l'.rounds[closing], d.closedAt)
            && (forall r :: r in l.rounds && r != closing ==> l'.rounds[r] == l.rounds[r])
            && SameRounds(l, l', t => t == textId || t == d.text)
  {
  }

  lemma CurrentIsLive(l: Library, issued: set<Id>, textId: Id)
    requires LibraryOk(l, issued) && CurrentRound(l, textId).Some?
    ensures textId in l.texts && textId !in l.supersededBy
  {
    hide SlotsOk;
    hide RoundIndexOk;
    hide ChainOk;
    hide RoundsOk;
    hide LibraryIdsOk;
    assert textId in l.currentRound;
  }
}
