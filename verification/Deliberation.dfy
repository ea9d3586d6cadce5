/**
 * Texts, rounds, slots, fragments and votes: what the store of api/queel/repository.go holds, what each
 * operation leaves in it, and what every reachable store satisfies. Each family of keys is one map or set;
 * a write batch is one step.
 */
module Deliberation {
  import opened Wrappers
  import opened Bytes
  import opened Splicing

  datatype Tag = Tag(name: Key)

  /** "seed", the author of the baseline fragment of each slot; no user has this id. */
  const SEED := Id([115, 101, 101, 100])

  datatype Text = Text(title: string, content: string, tags: seq<Tag>, finalized: bool, createdAt: int,
    previous: Option<Id>, createdBy: Id)

  datatype Round = Round(textId: Id, number: nat, open: bool, slots: seq<Slot>, createdAt: int,
    closedAt: Option<int>, closeAt: Option<int>, closeBy: Option<Id>)

  datatype Fragment = Fragment(textId: Id, slotId: Id, content: string, authorId: Id, createdAt: int)

  /** Texts with their rounds: `text/`, `round/`, `currentround/`, `roundcount/`, `supersededby/` and `roundindex/`. */
  datatype Library = Library(
    texts: map<Id, Text>,
    rounds: map<Id, Round>,
    currentRound: map<Id, Id>,
    roundCount: map<Id, nat>,
    supersededBy: map<Id, Id>,
    roundIndex: set<(Id, Id)>)

  /** What competes and what was voted: `fragment/`, `fragmentindex/`, `vote/` and `uservote/`. */
  datatype Ballots = Ballots(
    fragments: map<Id, Fragment>,
    fragmentIndex: set<(Id, Id, Id)>,
    votes: map<(Id, Id), int>,
    choices: map<(Id, Id, Id), Id>)

  /** Who follows what: `subscription/` by text and user, `subscriptionindex/` by user and text. */
  datatype Follows = Follows(subs: map<(Id, Id), int>, index: set<(Id, Id)>)

  /** The whole store; `issued` has every id handed out so far, to which new ones are not equal. */
  datatype Store = Store(library: Library, ballots: Ballots, follows: Follows, tagIndex: set<(Tag, Id)>,
    issued: set<Id>)

  const EMPTY :=
    Store(Library(map[], map[], map[], map[], map[], {}), Ballots(map[], {}, map[], map[]), Follows(map[], {}), {}, {})

  datatype RepositoryError =
    | NotFound
    | NoOpenRound
    | EmptyRound
    | OverlappingSlot
    | InvalidRange
    | TextSuperseded(into: Id)
    | StoreFailed

  // ---- What a slot's vote comes to ----

  datatype Scored = Scored(id: Id, fragment: Fragment, votes: nat)

  /** Most votes, then proposed first, then the smaller id. */
  predicate IsBetter(candidate: Scored, current: Scored)
  {
    if candidate.votes != current.votes then candidate.votes > current.votes
    else if candidate.fragment.createdAt != current.fragment.createdAt then
      candidate.fragment.createdAt < current.fragment.createdAt
    else Less(candidate.id.name, current.id.name)
  }

  /** A strict total order on fragments told apart by their ids. */
  lemma BetterIsStrictTotalOrder(a: Scored, b: Scored, c: Scored)
    ensures !IsBetter(a, a)
    ensures IsBetter(a, b) && IsBetter(b, c) ==> IsBetter(a, c)
    ensures a.id != b.id ==> (IsBetter(a, b) <==> !IsBetter(b, a))
    ensures a.votes > b.votes ==> IsBetter(a, b)
    ensures a.votes == b.votes && a.fragment.createdAt < b.fragment.createdAt ==> IsBetter(a, b)
    ensures a.votes == b.votes && a.fragment.createdAt == b.fragment.createdAt && Less(a.id.name, b.id.name) ==>
      IsBetter(a, b)
  {
    LessIrreflexive(a.id.name);
    LessTrichotomy(a.id.name, b.id.name);
    if Less(a.id.name, b.id.name) && Less(b.id.name, c.id.name) {
      LessTransitive(a.id.name, b.id.name, c.id.name);
    }
  }

  function Voters(b: Ballots, fragment: Id): set<Id>
  {
    set k | k in b.votes && k.0 == fragment :: k.1
  }

  function ScoreOf(b: Ballots, fragment: Id): Scored
    requires fragment in b.fragments
  {
    Scored(fragment, b.fragments[fragment], |Voters(b, fragment)|)
  }

  /** The fragments competing for a slot. */
  function Candidates(b: Ballots, textId: Id, slotId: Id): set<Id>
  {
    set e | e in b.fragmentIndex && e.0 == textId && e.1 == slotId :: e.2
  }

  ghost predicate BestOf(b: Ballots, among: set<Id>, best: Id)
    requires among <= b.fragments.Keys
  {
    best in among && forall f :: f in among && f != best ==> IsBetter(ScoreOf(b, best), ScoreOf(b, f))
  }

  lemma BestIsUnique(b: Ballots, among: set<Id>, x: Id, y: Id)
    requires among <= b.fragments.Keys && BestOf(b, among, x) && BestOf(b, among, y)
    ensures x == y
  {
    if x != y {
      BetterIsStrictTotalOrder(ScoreOf(b, x), ScoreOf(b, y), ScoreOf(b, x));
    }
  }

  lemma {:induction false} BestExists(b: Ballots, among: set<Id>)
    requires among <= b.fragments.Keys && among != {}
    ensures exists best :: BestOf(b, among, best)
    decreases |among|
  {
    var f :| f in among;
    var rest := among - {f};
    assert among == rest + {f};
    if rest == {} {
      assert BestOf(b, among, f);
    } else {
      BestExists(b, rest);
      var best :| BestOf(b, rest, best);
      BetterIsStrictTotalOrder(ScoreOf(b, f), ScoreOf(b, best), ScoreOf(b, f));
      if IsBetter(ScoreOf(b, f), ScoreOf(b, best)) {
        forall g | g in among && g != f
          ensures IsBetter(ScoreOf(b, f), ScoreOf(b, g))
        {
          BetterIsStrictTotalOrder(ScoreOf(b, f), ScoreOf(b, best), ScoreOf(b, g));
        }
        assert BestOf(b, among, f);
      } else {
        assert BestOf(b, among, best);
      }
    }
  }

  /** The winning fragment of a slot. */
  ghost function Winner(b: Ballots, textId: Id, slotId: Id): (best: Id)
    requires Candidates(b, textId, slotId) <= b.fragments.Keys && Candidates(b, textId, slotId) != {}
    ensures BestOf(b, Candidates(b, textId, slotId), best)
  {
    BestExists(b, Candidates(b, textId, slotId));
    var best :| BestOf(b, Candidates(b, textId, slotId), best);
    best
  }

  /** A fragment proposed for a slot. */
  predicate Contends(b: Ballots, textId: Id, slotId: Id, f: Id)
  {
    f in b.fragments && b.fragments[f].textId == textId && b.fragments[f].slotId == slotId
  }

  /**
   * No fragment of the slot has more votes than `w`; of those with as many none is older; of those as old none has a
   * smaller id.
   */
  ghost predicate Wins(b: Ballots, textId: Id, slotId: Id, w: Id)
  {
    && Contends(b, textId, slotId, w)
    && forall f :: Contends(b, textId, slotId, f) && f != w ==>
         && |Voters(b, f)| <= |Voters(b, w)|
         && (|Voters(b, f)| == |Voters(b, w)| ==> b.fragments[w].createdAt <= b.fragments[f].createdAt)
         && (|Voters(b, f)| == |Voters(b, w)| && b.fragments[f].createdAt == b.fragments[w].createdAt ==>
               Less(w.name, f.name))
  }

  lemma CandidatesAre(texts: set<Id>, b: Ballots, textId: Id, slotId: Id)
    requires FragmentsOk(texts, b)
    ensures Candidates(b, textId, slotId) <= b.fragments.Keys
    ensures forall f :: f in Candidates(b, textId, slotId) <==> Contends(b, textId, slotId, f)
  {
    forall f | Contends(b, textId, slotId, f)
      ensures f in Candidates(b, textId, slotId)
    {
      assert (textId, slotId, f) in b.fragmentIndex;
    }
  }

  /** The winner has the most votes, the earlier and then the smaller id deciding between equals; nothing else has. */
  lemma WinsExactly(texts: set<Id>, b: Ballots, textId: Id, slotId: Id, w: Id)
    requires FragmentsOk(texts, b) && Candidates(b, textId, slotId) != {}
    ensures Candidates(b, textId, slotId) <= b.fragments.Keys
    ensures Wins(b, textId, slotId, w) <==> w == Winner(b, textId, slotId)
  {
    CandidatesAre(texts, b, textId, slotId);
    var best := Winner(b, textId, slotId);
    assert Wins(b, textId, slotId, best) by {
      forall f | Contends(b, textId, slotId, f) && f != best
        ensures IsBetter(ScoreOf(b, best), ScoreOf(b, f))
      {
      }
    }
    if Wins(b, textId, slotId, w) && w != best {
      LessTrichotomy(w.name, best.name);
    }
  }

  // ---- What a range is resolved to ----

  /** A range is that of an open slot, or a new one, or overlaps some slot without being it. */
  function ResolveSlot(slots: seq<Slot>, start: int, end: int): Result<Option<Id>, RepositoryError>
  {
    if slots == [] then Ok(None)
    else if slots[0].start == start && slots[0].end == end then Ok(Some(slots[0].id))
    else if start < slots[0].end && end > slots[0].start then Err(OverlappingSlot)
    else ResolveSlot(slots[1..], start, end)
  }

  predicate Overlaps(slot: Slot, start: int, end: int)
  {
    start < slot.end && end > slot.start
  }

  /** On slots that fit, the order in which they are tried is immaterial. */
  lemma {:induction false} ResolvesExactly(slots: seq<Slot>, length: nat, start: int, end: int)
    requires SlotsFit(slots, length) && start < end
    ensures ResolveSlot(slots, start, end) == Ok(None) <==>
      forall i :: 0 <= i < |slots| ==> !Overlaps(slots[i], start, end)
    ensures forall id :: ResolveSlot(slots, start, end) == Ok(Some(id)) <==>
      exists i :: 0 <= i < |slots| && slots[i].start == start && slots[i].end == end && slots[i].id == id
  {
    if slots != [] {
      var first, rest := slots[0], slots[1..];
      assert forall i :: 0 <= i < |rest| ==> rest[i] == slots[i + 1];
      assert forall i :: 0 < i < |slots| ==> slots[i] == rest[i - 1] && Apart(first, slots[i]);
      ResolvesExactly(rest, length, start, end);
      forall id
        ensures ResolveSlot(slots, start, end) == Ok(Some(id)) <==>
          exists i :: 0 <= i < |slots| && slots[i].start == start && slots[i].end == end && slots[i].id == id
      {
        if i :| 0 <= i < |rest| && rest[i].start == start && rest[i].end == end && rest[i].id == id {
          assert slots[i + 1].id == id;
        }
      }
    }
  }

  // ---- What each operation writes ----

  /** A round opened on a text, with no slots yet. */
  function WithRound(l: Library, textId: Id, roundId: Id, number: nat, now: int): Library
  {
    Library(l.texts, l.rounds[roundId := Round(textId, number, true, [], now, None, None, None)],
      l.currentRound[textId := roundId], l.roundCount[textId := number], l.supersededBy,
      l.roundIndex + {(textId, roundId)})
  }

  function WithText(l: Library, id: Id, text: Text): Library
  {
    Library(l.texts[id := text], l.rounds, l.currentRound, l.roundCount, l.supersededBy, l.roundIndex)
  }

  function TagEntries(tags: seq<Tag>, textId: Id): set<(Tag, Id)>
  {
    set tag | tag in tags :: (tag, textId)
  }

  function Following(f: Follows, user: Id, textId: Id, now: int): Follows
  {
    Follows(f.subs[(textId, user) := now], f.index + {(user, textId)})
  }

  function AfterCreateText(s: Store, id: Id, roundId: Id, title: string, content: string, author: Id, tags: seq<Tag>,
      now: int, openedAt: int): Store
  {
    Store(WithRound(WithText(s.library, id, Text(title, content, tags, false, now, None, author)), id, roundId, 1,
      openedAt),
      s.ballots, Following(s.follows, author, id, now), s.tagIndex + TagEntries(tags, id), s.issued + {id, roundId})
  }

  function WithFragment(b: Ballots, id: Id, fragment: Fragment): Ballots
  {
    Ballots(b.fragments[id := fragment], b.fragmentIndex + {(fragment.textId, fragment.slotId, id)}, b.votes, b.choices)
  }

  function WithSlot(l: Library, roundId: Id, slot: Slot): Library
    requires roundId in l.rounds
  {
    l.(rounds := l.rounds[roundId := l.rounds[roundId].(slots := l.rounds[roundId].slots + [slot])])
  }

  /** The round a text has open, if the pointer to it leads anywhere. */
  function CurrentRound(l: Library, textId: Id): Option<Id>
  {
    if textId in l.currentRound && l.currentRound[textId] in l.rounds then Some(l.currentRound[textId]) else None
  }

  /** The ids and instants a proposal may draw. */
  datatype Draws = Draws(round: Id, slot: Id, seed: Id, fragment: Id, openedAt: int, seededAt: int, addedAt: int)

  predicate FreshDraws(s: Store, d: Draws)
  {
    && d.round !in s.issued && d.slot !in s.issued && d.seed !in s.issued && d.fragment !in s.issued
    && d.round != d.slot && d.round != d.seed && d.round != d.fragment
    && d.slot != d.seed && d.slot != d.fragment && d.seed != d.fragment
  }

  /** The store in which a proposal is resolved: one with a round open on the text. */
  function RoundOpened(s: Store, textId: Id, d: Draws): Result<Store, RepositoryError>
  {
    var l := s.library;
    if CurrentRound(l, textId).Some? then Ok(s)
    else if textId in l.supersededBy then Err(TextSuperseded(l.supersededBy[textId]))
    else
      var number := if textId in l.roundCount then l.roundCount[textId] + 1 else 1;
      Ok(s.(library := WithRound(l, textId, d.round, number, d.openedAt), issued := s.issued + {d.round}))
  }

  /** A new slot in a round, seeded with the text's own content there. */
  function NewSlot(s: Store, textId: Id, roundId: Id, start: nat, end: nat, d: Draws): Store
    requires textId in s.library.texts && roundId in s.library.rounds
      && start <= end <= |s.library.texts[textId].content|
  {
    var seed := Fragment(textId, d.slot, s.library.texts[textId].content[start..end], SEED, d.seededAt);
    s.(library := WithSlot(s.library, roundId, Slot(d.slot, start, end, s.library.rounds[roundId].number)),
       ballots := WithFragment(s.ballots, d.seed, seed),
       issued := s.issued + {d.slot, d.seed})
  }

  /** A proposal's slot: the one its range already is, or a new one. */
  function SlotOpened(s: Store, textId: Id, start: nat, end: nat, d: Draws): Result<(Store, Id), RepositoryError>
    requires textId in s.library.texts && CurrentRound(s.library, textId).Some?
    requires start < end <= |s.library.texts[textId].content|
  {
    var roundId := CurrentRound(s.library, textId).value;
    match ResolveSlot(s.library.rounds[roundId].slots, start, end)
    case Err(e) => Err(e)
    case Ok(Some(id)) => Ok((s, id))
    case Ok(None) => Ok((NewSlot(s, textId, roundId, start, end, d), d.slot))
  }

  function FragmentAdded(s: Store, id: Id, fragment: Fragment): Store
  {
    s.(ballots := WithFragment(s.ballots, id, fragment), issued := s.issued + {id})
  }

  /** A proposal, in up to three batches: opening a round where none is open, opening the slot, adding the fragment. */
  function AfterProposal(s: Store, textId: Id, start: int, end: int, content: string, author: Id, d: Draws)
    : Result<Store, RepositoryError>
  {
    if textId !in s.library.texts then Err(NotFound)
    else if start < 0 || end <= start || end > |s.library.texts[textId].content| then Err(InvalidRange)
    else
      match RoundOpened(s, textId, d)
      case Err(e) => Err(e)
      case Ok(ready) =>
        match SlotOpened(ready, textId, start, end, d)
        case Err(e) => Err(e)
        case Ok((seeded, slotId)) => Ok(FragmentAdded(seeded, d.fragment,
          Fragment(textId, slotId, content, author, d.addedAt)))
  }

  /** A vote moves a user's choice for the fragment's slot to the fragment. */
  function WithVote(b: Ballots, fragmentId: Id, user: Id, now: int): Ballots
    requires fragmentId in b.fragments
  {
    var choice := (b.fragments[fragmentId].textId, b.fragments[fragmentId].slotId, user);
    var withdrawn := if choice in b.choices && b.choices[choice] != fragmentId then {(b.choices[choice], user)} else {};
    Ballots(b.fragments, b.fragmentIndex, b.votes[(fragmentId, user) := now] - withdrawn,
      b.choices[choice := fragmentId])
  }

  function AfterVote(s: Store, fragmentId: Id, user: Id, now: int): Result<Store, RepositoryError>
  {
    if fragmentId !in s.ballots.fragments then Err(NotFound)
    else Ok(s.(ballots := WithVote(s.ballots, fragmentId, user, now)))
  }

  function Scheduled(l: Library, roundId: Id, closeAt: int, user: Id): Library
    requires roundId in l.rounds
  {
    l.(rounds := l.rounds[roundId := l.rounds[roundId].(closeAt := Some(closeAt), closeBy := Some(user))])
  }

  function AfterSchedule(s: Store, textId: Id, closeAt: int, user: Id): Result<Store, RepositoryError>
  {
    match CurrentRound(s.library, textId)
    case None => Err(NoOpenRound)
    case Some(id) =>
      if s.library.rounds[id].slots == [] then Err(EmptyRound)
      else Ok(s.(library := Scheduled(s.library, id, closeAt, user)))
  }

  function AfterSubscribe(s: Store, user: Id, textId: Id, now: int): Result<Store, RepositoryError>
  {
    if textId !in s.library.texts then Err(NotFound)
    else Ok(s.(follows := Following(s.follows, user, textId, now)))
  }

  function AfterUnsubscribe(s: Store, user: Id, textId: Id): Store
  {
    s.(follows := Follows(s.follows.subs - {(textId, user)}, s.follows.index - {(user, textId)}))
  }

  function WithoutFollower(f: Follows, user: Id): Follows
  {
    Follows(map k | k in f.subs && !(k.1 == user && (user, k.0) in f.index) :: f.subs[k],
      set e | e in f.index && e.0 != user)
  }

  function AfterDeleteUserSubscriptions(s: Store, user: Id): Store
  {
    s.(follows := WithoutFollower(s.follows, user))
  }

  function WithoutVoter(b: Ballots, user: Id): Ballots
  {
    Ballots(b.fragments, b.fragmentIndex,
      map k | k in b.votes && k.1 != user :: b.votes[k], map k | k in b.choices && k.2 != user :: b.choices[k])
  }

  function AfterDeleteUserVotes(s: Store, user: Id): Store
  {
    s.(ballots := WithoutVoter(s.ballots, user))
  }

  /** Fragments removed with everything that depends on them: index entries, votes, the choices aimed at them. */
  function WithoutFragments(b: Ballots, gone: set<Id>): Ballots
  {
    Ballots(b.fragments - gone,
      set e | e in b.fragmentIndex && e.2 !in gone,
      map k | k in b.votes && k.0 !in gone :: b.votes[k],
      map k | k in b.choices && b.choices[k] !in gone :: b.choices[k])
  }

  function FragmentsBy(b: Ballots, user: Id): set<Id>
  {
    set f | f in b.fragments && b.fragments[f].authorId == user
  }

  function AfterDeleteUserFragments(s: Store, user: Id): Store
  {
    s.(ballots := WithoutFragments(s.ballots, FragmentsBy(s.ballots, user)))
  }

  /** Texts removed with their rounds and every pointer kept about them. */
  function WithoutTexts(l: Library, gone: set<Id>): Library
  {
    Library(l.texts - gone,
      map r | r in l.rounds && l.rounds[r].textId !in gone :: l.rounds[r],
      l.currentRound - gone,
      l.roundCount - gone,
      l.supersededBy - gone,
      set e | e in l.roundIndex && !(e.0 in gone && e.1 in l.rounds && l.rounds[e.1].textId == e.0))
  }

  function FragmentsOn(b: Ballots, gone: set<Id>): set<Id>
  {
    set e | e in b.fragmentIndex && e.0 in gone :: e.2
  }

  /** Whatever competed on these texts removed, with its votes and the choices made on these texts. */
  function WithoutBallotsOn(b: Ballots, gone: set<Id>): Ballots
  {
    var fragments := FragmentsOn(b, gone);
    Ballots(b.fragments - fragments,
      set e | e in b.fragmentIndex && e.0 !in gone,
      map k | k in b.votes && k.0 !in fragments :: b.votes[k],
      map k | k in b.choices && k.0 !in gone :: b.choices[k])
  }

  function TextsBy(l: Library, user: Id): set<Id>
  {
    set t | t in l.texts && l.texts[t].createdBy == user
  }

  /** Deleting what a user created leaves labels and subscriptions as they were. */
  function AfterDeleteUserTexts(s: Store, user: Id): Store
  {
    var gone := TextsBy(s.library, user);
    s.(library := WithoutTexts(s.library, gone), ballots := WithoutBallotsOn(s.ballots, gone))
  }

  function Subscribers(f: Follows, textId: Id): set<Id>
  {
    set k | k in f.subs && k.0 == textId :: k.1
  }

  function WithoutFollowed(f: Follows, textId: Id): Follows
  {
    Follows(map k | k in f.subs && k.0 != textId :: f.subs[k],
      set e | e in f.index && !(e.1 == textId && e.0 in Subscribers(f, textId)))
  }

  function AfterDeleteText(s: Store, textId: Id): Result<Store, RepositoryError>
  {
    if textId !in s.library.texts then Err(NotFound)
    else
      Ok(Store(WithoutTexts(s.library, {textId}), WithoutBallotsOn(s.ballots, {textId}),
        WithoutFollowed(s.follows, textId),
        s.tagIndex - TagEntries(s.library.texts[textId].tags, textId), s.issued))
  }

  // ---- Closing a round ----

  /** Every slot has a fragment to win it, and all its fragments exist. */
  ghost predicate Decidable(b: Ballots, textId: Id, slots: seq<Slot>)
  {
    forall i :: 0 <= i < |slots| ==>
      Candidates(b, textId, slots[i].id) != {} && Candidates(b, textId, slots[i].id) <= b.fragments.Keys
  }

  function SlotIds(slots: seq<Slot>): set<Id>
  {
    set i | 0 <= i < |slots| :: slots[i].id
  }

  ghost function Winners(b: Ballots, textId: Id, slots: seq<Slot>): (winners: map<Id, string>)
    requires Decidable(b, textId, slots)
    ensures Known(slots, winners)
  {
    map id | id in SlotIds(slots) :: b.fragments[Winner(b, textId, id)].content
  }

  /** The slots opened in a text's current round. */
  function OpenSlots(l: Library, textId: Id): seq<Slot>
    requires CurrentRound(l, textId).Some?
  {
    l.rounds[l.currentRound[textId]].slots
  }

  /** What closing needs to succeed. */
  ghost predicate Closable(s: Store, textId: Id)
  {
    && textId in s.library.texts && CurrentRound(s.library, textId).Some?
    && var slots := OpenSlots(s.library, textId);
       slots != [] && SlotsFit(slots, |s.library.texts[textId].content|) && Decidable(s.ballots, textId, slots)
  }

  /** The content the round settles on. */
  ghost function Settled(s: Store, textId: Id): string
    requires Closable(s, textId)
  {
    var slots := OpenSlots(s.library, textId);
    Spliced(s.library.texts[textId].content, slots, Winners(s.ballots, textId, slots))
  }

  /** Every subscriber of one text becomes a subscriber of another instead. */
  function MovedFollowers(f: Follows, from: Id, to: Id, now: int): Follows
  {
    var users := Subscribers(f, from);
    var arriving := set u | u in users :: (to, u);
    Follows(map k | k in f.subs.Keys + arriving && k.0 != from :: if k in arriving then now else f.subs[k],
      (set e | e in f.index && !(e.1 == from && e.0 in users)) + set u | u in users :: (u, to))
  }

  /** The outcome of one slot. */
  datatype SlotResult = SlotResult(slotId: Id, fragment: Id, votes: nat)

  /** What closing a round returns: the new text and how each slot was resolved. */
  datatype RoundOutcome = RoundOutcome(textId: Id, text: Text, slots: seq<SlotResult>)

  /** The ids and instants closing a round draws. */
  datatype CloseDraws = CloseDraws(text: Id, round: Id, forkedAt: int, closedAt: int, openedAt: int)

  /** A text superseded by its fork, its round closed. */
  function Forked(l: Library, textId: Id, newId: Id, fork: Text, closedAt: int): Library
    requires textId in l.currentRound && l.currentRound[textId] in l.rounds
  {
    var closing := l.currentRound[textId];
    Library(l.texts[newId := fork], l.rounds[closing := l.rounds[closing].(open := false, closedAt := Some(closedAt))],
      l.currentRound - {textId}, l.roundCount, l.supersededBy[textId := newId], l.roundIndex)
  }

  /** The next version of a text. */
  ghost function ForkOf(s: Store, textId: Id, d: CloseDraws): Text
    requires Closable(s, textId)
  {
    var text := s.library.texts[textId];
    Text(text.title, Settled(s, textId), text.tags, true, d.forkedAt, Some(textId), text.createdBy)
  }

  /** A text superseded by its fork, which has the next round open. */
  function ForkedLibrary(l: Library, textId: Id, fork: Text, d: CloseDraws): Library
    requires textId in l.currentRound && l.currentRound[textId] in l.rounds
  {
    WithRound(Forked(l, textId, d.text, fork, d.closedAt), d.text, d.round,
      l.rounds[l.currentRound[textId]].number + 1, d.openedAt)
  }

  /** Subscribers and labels move to the fork. */
  ghost function AfterClose(s: Store, textId: Id, d: CloseDraws): Store
    requires Closable(s, textId)
  {
    var fork := ForkOf(s, textId, d);
    Store(ForkedLibrary(s.library, textId, fork, d), s.ballots, MovedFollowers(s.follows, textId, d.text, d.closedAt),
      s.tagIndex - TagEntries(fork.tags, textId) + TagEntries(fork.tags, d.text), s.issued + {d.text, d.round})
  }

  ghost function CloseOutcome(s: Store, textId: Id, d: CloseDraws): Result<Store, RepositoryError>
  {
    if CurrentRound(s.library, textId).None? then Err(NoOpenRound)
    else if OpenSlots(s.library, textId) == [] then Err(EmptyRound)
    else if !Closable(s, textId) then Err(NotFound)
    else Ok(AfterClose(s, textId, d))
  }

  // ---- What every reachable store satisfies ----

  /** Texts, and only they, have a round count, and an open round exactly until they are superseded. */
  ghost predicate PointersOk(l: Library)
  {
    && (forall t :: t in l.roundCount <==> t in l.texts)
    && (forall t :: t in l.supersededBy ==> t in l.texts)
    && forall t :: t in l.currentRound <==> t in l.texts && t !in l.supersededBy
  }

  /** A text's current round is an open round of that text. */
  ghost predicate CurrentOk(l: Library)
  {
    forall t :: t in l.currentRound ==>
      l.currentRound[t] in l.rounds && l.rounds[l.currentRound[t]].textId == t && l.rounds[l.currentRound[t]].open
  }

  /** Each round belongs to a text and bears its number; the open one is the text's current one. */
  ghost predicate RoundsOk(l: Library)
  {
    forall r :: r in l.rounds ==>
      var round := l.rounds[r];
      && round.textId in l.texts && round.textId in l.roundCount && round.number == l.roundCount[round.textId]
      && (round.open ==> round.textId in l.currentRound && l.currentRound[round.textId] == r)
  }

  ghost predicate RoundIndexOk(l: Library)
  {
    && (forall r :: r in l.rounds ==> (l.rounds[r].textId, r) in l.roundIndex)
    && forall e :: e in l.roundIndex ==> e.1 in l.rounds && l.rounds[e.1].textId == e.0
  }

  /** Slots are disjoint non-empty ranges of their text; only a round with slots is ever scheduled. */
  ghost predicate SlotsOk(l: Library)
  {
    forall r :: r in l.rounds && l.rounds[r].textId in l.texts ==>
      && SlotsFit(l.rounds[r].slots, |l.texts[l.rounds[r].textId].content|)
      && (l.rounds[r].closeAt.Some? ==> l.rounds[r].slots != [])
  }

  ghost predicate IsSeed(l: Library, b: Ballots, textId: Id, slot: Slot, f: Id)
  {
    && textId in l.texts && slot.start <= slot.end <= |l.texts[textId].content|
    && f in b.fragments && b.fragments[f].textId == textId && b.fragments[f].slotId == slot.id
    && b.fragments[f].authorId == SEED && b.fragments[f].content == l.texts[textId].content[slot.start..slot.end]
  }

  ghost predicate HasSeed(l: Library, b: Ballots, textId: Id, slot: Slot)
  {
    exists f :: IsSeed(l, b, textId, slot, f)
  }

  /** Every slot keeps a seed fragment with the original runes. */
  ghost predicate SeedsOk(l: Library, b: Ballots)
  {
    forall r, i :: r in l.rounds && 0 <= i < |l.rounds[r].slots| ==>
      HasSeed(l, b, l.rounds[r].textId, l.rounds[r].slots[i])
  }

  /** Every fragment is of a live text, and the index lists each under its text and slot. */
  ghost predicate FragmentsOk(texts: set<Id>, b: Ballots)
  {
    && (forall f :: f in b.fragments ==>
          b.fragments[f].textId in texts && (b.fragments[f].textId, b.fragments[f].slotId, f) in b.fragmentIndex)
    && forall e :: e in b.fragmentIndex ==>
         e.2 in b.fragments && b.fragments[e.2].textId == e.0 && b.fragments[e.2].slotId == e.1
  }

  /** A user's choice for the slot of a fragment. */
  function ChoiceKey(fragment: Fragment, user: Id): (Id, Id, Id)
  {
    (fragment.textId, fragment.slotId, user)
  }

  /** A vote for a fragment is recorded exactly when it is the user's choice for the fragment's slot. */
  ghost predicate VotesOk(b: Ballots)
  {
    && (forall k :: k in b.votes ==>
          && k.0 in b.fragments && ChoiceKey(b.fragments[k.0], k.1) in b.choices
          && b.choices[ChoiceKey(b.fragments[k.0], k.1)] == k.0)
    && forall c :: c in b.choices ==>
         b.choices[c] in b.fragments && ChoiceKey(b.fragments[b.choices[c]], c.2) == c && (b.choices[c], c.2) in b.votes
  }

  /** Backward and forward links between surviving versions agree, and the round count rises by one along them. */
  ghost predicate ChainOk(l: Library)
  {
    && (forall t :: t in l.texts && l.texts[t].previous.Some? && l.texts[t].previous.value in l.texts ==>
          l.texts[t].previous.value in l.supersededBy && l.supersededBy[l.texts[t].previous.value] == t)
    && forall p :: p in l.supersededBy && l.supersededBy[p] in l.texts ==>
         && l.texts[l.supersededBy[p]].previous == Some(p)
         && p in l.roundCount && l.supersededBy[p] in l.roundCount
         && l.roundCount[l.supersededBy[p]] == l.roundCount[p] + 1
  }

  /** A current text is listed under exactly its labels, a superseded one under none. */
  ghost predicate TagsOk(l: Library, tagIndex: set<(Tag, Id)>)
  {
    forall t, tag :: t in l.texts ==> ((tag, t) in tagIndex <==> t !in l.supersededBy && tag in l.texts[t].tags)
  }

  /** The two subscription listings are mirror images. */
  ghost predicate FollowsOk(f: Follows)
  {
    forall t, u :: (t, u) in f.subs <==> (u, t) in f.index
  }

  /** Whatever id the store mentions was handed out before. */
  ghost predicate LibraryIdsOk(l: Library, issued: set<Id>)
  {
    && (forall t :: t in l.texts ==> t in issued && (l.texts[t].previous.Some? ==> l.texts[t].previous.value in issued))
    && (forall r :: r in l.rounds ==>
          r in issued && forall i :: 0 <= i < |l.rounds[r].slots| ==> l.rounds[r].slots[i].id in issued)
    && forall p :: p in l.supersededBy ==> l.supersededBy[p] in issued
  }

  ghost predicate BallotIdsOk(b: Ballots, issued: set<Id>)
  {
    forall f :: f in b.fragments ==> f in issued && b.fragments[f].slotId in issued
  }

  ghost predicate OtherIdsOk(f: Follows, tagIndex: set<(Tag, Id)>, issued: set<Id>)
  {
    (forall e :: e in tagIndex ==> e.1 in issued) && forall k :: k in f.subs ==> k.0 in issued
  }

  ghost predicate LibraryOk(l: Library, issued: set<Id>)
  {
    PointersOk(l) && CurrentOk(l) && RoundsOk(l) && RoundIndexOk(l) && SlotsOk(l) && ChainOk(l)
      && LibraryIdsOk(l, issued)
  }

  ghost predicate BallotsOk(l: Library, b: Ballots, issued: set<Id>)
  {
    SeedsOk(l, b) && FragmentsOk(l.texts.Keys, b) && VotesOk(b) && BallotIdsOk(b, issued)
  }

  ghost predicate ListingsOk(l: Library, f: Follows, tagIndex: set<(Tag, Id)>, issued: set<Id>)
  {
    TagsOk(l, tagIndex) && FollowsOk(f) && OtherIdsOk(f, tagIndex, issued)
  }

  ghost predicate Invariant(s: Store)
  {
    && LibraryOk(s.library, s.issued) && BallotsOk(s.library, s.ballots, s.issued)
    && ListingsOk(s.library, s.follows, s.tagIndex, s.issued)
  }

  lemma EmptyOk()
    ensures Invariant(EMPTY)
  {
  }
}
