/** What the invariant of the repository's store says about voting and closing. */
module DeliberationLaws {
  import opened Wrappers
  import opened Bytes
  import opened Splicing
  import opened Deliberation

  // ---- One vote per user and slot ----

  /** Everyone with a choice recorded for a slot. */
  function Choosers(b: Ballots, textId: Id, slotId: Id): set<Id>
  {
    set c | c in b.choices && c.0 == textId && c.1 == slotId :: c.2
  }

  function SumOfVotes(b: Ballots, fragments: seq<Id>): nat
  {
    if fragments == [] then 0
    else SumOfVotes(b, fragments[..|fragments| - 1]) + |Voters(b, fragments[|fragments| - 1])|
  }

  function VotersOfAny(b: Ballots, fragments: seq<Id>): set<Id>
  {
    set k | k in b.votes && k.0 in fragments :: k.1
  }

  /** The fragments of one slot, each listed once. */
  ghost predicate Competing(b: Ballots, textId: Id, slotId: Id, fragments: seq<Id>)
  {
    && (forall f :: f in fragments ==>
          f in b.fragments && b.fragments[f].textId == textId && b.fragments[f].slotId == slotId)
    && forall i, j :: 0 <= i < j < |fragments| ==> fragments[i] != fragments[j]
  }

  /** Nobody votes for two fragments of a slot, so votes add up to voters. */
  lemma {:induction false} VotesAddUp(b: Ballots, textId: Id, slotId: Id, fragments: seq<Id>)
    requires VotesOk(b) && Competing(b, textId, slotId, fragments)
    ensures SumOfVotes(b, fragments) == |VotersOfAny(b, fragments)|
  {
    if fragments == [] {
      assert VotersOfAny(b, fragments) == {};
    } else {
      var front, last := fragments[..|fragments| - 1], fragments[|fragments| - 1];
      assert fragments == front + [last];
      VotesAddUp(b, textId, slotId, front);
      OneMoreFragment(b, textId, slotId, front, last);
    }
  }

  lemma OneMoreFragment(b: Ballots, textId: Id, slotId: Id, front: seq<Id>, last: Id)
    requires VotesOk(b) && Competing(b, textId, slotId, front + [last])
    ensures VotersOfAny(b, front + [last]) == VotersOfAny(b, front) + Voters(b, last)
    ensures VotersOfAny(b, front) !! Voters(b, last)
  {
    var fragments := front + [last];
    assert last in fragments && last !in front by {
      assert fragments[|front|] == last;
      assert forall i :: 0 <= i < |front| ==> fragments[i] == front[i];
    }
    assert forall f :: f in fragments <==> f in front || f == last;
    forall u | u in Voters(b, last)
      ensures u !in VotersOfAny(b, front) && u in VotersOfAny(b, fragments)
    {
      assert (last, u) in b.votes;
      forall f | f in front
        ensures (f, u) !in b.votes
      {
        assert ChoiceKey(b.fragments[f], u) == ChoiceKey(b.fragments[last], u);
      }
    }
    forall u | u in VotersOfAny(b, front)
      ensures u in VotersOfAny(b, fragments)
    {
      var k :| k in b.votes && k.0 in front && k.1 == u;
      assert k.0 in fragments;
    }
  }

  /** The vote counts of a slot's fragments add up to the number of users who chose in it. */
  lemma VotesSumToChoosers(texts: set<Id>, b: Ballots, textId: Id, slotId: Id, fragments: seq<Id>)
    requires VotesOk(b) && FragmentsOk(texts, b)
    requires forall f :: f in fragments <==> f in Candidates(b, textId, slotId)
    requires forall i, j :: 0 <= i < j < |fragments| ==> fragments[i] != fragments[j]
    ensures SumOfVotes(b, fragments) == |Choosers(b, textId, slotId)|
  {
    assert Competing(b, textId, slotId, fragments);
    VotesAddUp(b, textId, slotId, fragments);
    forall u | u in Choosers(b, textId, slotId)
      ensures u in VotersOfAny(b, fragments)
    {
      var c :| c in b.choices && c.0 == textId && c.1 == slotId && c.2 == u;
      var f := b.choices[c];
      assert (b.fragments[f].textId, b.fragments[f].slotId, f) in b.fragmentIndex;
      assert f in Candidates(b, textId, slotId);
      assert (f, u) in b.votes && f in fragments;
    }
    forall u | u in VotersOfAny(b, fragments)
      ensures u in Choosers(b, textId, slotId)
    {
      var k :| k in b.votes && k.0 in fragments && k.1 == u;
      assert ChoiceKey(b.fragments[k.0], u) == (textId, slotId, u);
    }
    assert VotersOfAny(b, fragments) == Choosers(b, textId, slotId);
  }

  // ---- Closing does not depend on order ----

  /** Two stores in which the same fragments compete for a slot with the same votes. */
  ghost predicate SameContest(a: Ballots, b: Ballots, textId: Id, slotId: Id)
  {
    && Candidates(a, textId, slotId) == Candidates(b, textId, slotId)
    && forall f :: f in Candidates(a, textId, slotId) ==>
         && f in a.fragments && f in b.fragments && a.fragments[f] == b.fragments[f]
         && Voters(a, f) == Voters(b, f)
  }

  lemma SameWinner(a: Ballots, b: Ballots, textId: Id, slotId: Id)
    requires SameContest(a, b, textId, slotId) && Candidates(a, textId, slotId) != {}
    requires Candidates(a, textId, slotId) <= a.fragments.Keys && Candidates(b, textId, slotId) <= b.fragments.Keys
    ensures Winner(a, textId, slotId) == Winner(b, textId, slotId)
  {
    var x, y, among := Winner(a, textId, slotId), Winner(b, textId, slotId), Candidates(a, textId, slotId);
    assert BestOf(a, among, x) && BestOf(b, among, y);
    forall f | f in among
      ensures ScoreOf(a, f) == ScoreOf(b, f)
    {
    }
    assert BestOf(a, among, y);
    BestIsUnique(a, among, x, y);
  }

  /**
   * The content closing settles on depends on the text, on which slots there are and on what competes in
   * each with which votes; not on the order in which slots were opened or anything was listed.
   */
  lemma SettledFromSets(s: Store, t: Store, textId: Id)
    requires Closable(s, textId) && Closable(t, textId)
    requires s.library.texts[textId].content == t.library.texts[textId].content
    requires var slots, slots' := OpenSlots(s.library, textId), OpenSlots(t.library, textId);
             && multiset(slots) == multiset(slots')
             && forall i :: 0 <= i < |slots| ==> SameContest(s.ballots, t.ballots, textId, slots[i].id)
    ensures Settled(s, textId) == Settled(t, textId)
  {
    var slots, slots' := OpenSlots(s.library, textId), OpenSlots(t.library, textId);
    SameWinners(s.ballots, t.ballots, textId, slots, slots');
    hide Spliced;
    hide SlotsFit;
    hide Decidable;
    hide Winners;
    SplicedPermuted(s.library.texts[textId].content, slots, slots', Winners(s.ballots, textId, slots));
  }

  lemma SameWinners(a: Ballots, b: Ballots, textId: Id, slots: seq<Slot>, slots': seq<Slot>)
    requires Decidable(a, textId, slots) && Decidable(b, textId, slots') && multiset(slots) == multiset(slots')
    requires forall i :: 0 <= i < |slots| ==> SameContest(a, b, textId, slots[i].id)
    ensures Winners(a, textId, slots) == Winners(b, textId, slots')
  {
    SameIds(slots, slots');
    SameIds(slots', slots);
    assert SlotIds(slots) == SlotIds(slots');
    forall id | id in SlotIds(slots)
      ensures Winners(a, textId, slots)[id] == Winners(b, textId, slots')[id]
    {
      SameWinner(a, b, textId, id);
    }
  }

  lemma SameIds(slots: seq<Slot>, slots': seq<Slot>)
    requires multiset(slots) == multiset(slots')
    ensures SlotIds(slots) <= SlotIds(slots')
  {
    forall i | 0 <= i < |slots|
      ensures slots[i].id in SlotIds(slots')
    {
      assert slots[i] in multiset(slots');
      var j :| 0 <= j < |slots'| && slots'[j] == slots[i];
    }
  }

  // ---- Silence changes nothing ----

  /** Nobody voted on a slot, and its seed was there before anything else that competes. */
  ghost predicate Undisturbed(l: Library, b: Ballots, textId: Id, slot: Slot, seed: Id)
  {
    && IsSeed(l, b, textId, slot, seed) && seed in Candidates(b, textId, slot.id)
    && forall f :: f in Candidates(b, textId, slot.id) ==>
         f in b.fragments && Voters(b, f) == {}
         && (f != seed ==> b.fragments[seed].createdAt < b.fragments[f].createdAt)
  }

  lemma SeedWins(l: Library, b: Ballots, textId: Id, slot: Slot, seed: Id)
    requires Undisturbed(l, b, textId, slot, seed) && Candidates(b, textId, slot.id) <= b.fragments.Keys
    ensures Winner(b, textId, slot.id) == seed
  {
    var among := Candidates(b, textId, slot.id);
    assert BestOf(b, among, seed);
    BestIsUnique(b, among, Winner(b, textId, slot.id), seed);
  }

  /** Closing a round in which nobody voted forks the text with its wording unchanged. */
  lemma SilentRoundKeepsText(s: Store, textId: Id, seeds: map<Id, Id>)
    requires Closable(s, textId)
    requires var slots := OpenSlots(s.library, textId);
             forall i :: 0 <= i < |slots| ==>
               slots[i].id in seeds && Undisturbed(s.library, s.ballots, textId, slots[i], seeds[slots[i].id])
    ensures Settled(s, textId) == s.library.texts[textId].content
  {
    var slots := OpenSlots(s.library, textId);
    forall i | 0 <= i < |slots|
      ensures Winner(s.ballots, textId, slots[i].id) == seeds[slots[i].id]
    {
      SeedWins(s.library, s.ballots, textId, slots[i], seeds[slots[i].id]);
    }
    var content, winners := s.library.texts[textId].content, Winners(s.ballots, textId, slots);
    forall i | 0 <= i < |slots|
      ensures slots[i].id in winners && slots[i].start <= slots[i].end <= |content|
      ensures winners[slots[i].id] == content[slots[i].start..slots[i].end]
    {
      assert slots[i].id in SlotIds(slots);
      assert IsSeed(s.library, s.ballots, textId, slots[i], seeds[slots[i].id]);
    }
    SplicedLaws(content, slots, winners);
  }
}
