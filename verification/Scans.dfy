/**
 * The loops of api/queel/repository.go that collect what a write batch will hold: each scans the store as it
 * was, in whatever order, and builds up what the batch will leave of one family of keys.
 */
module Scans {
  import opened Wrappers
  import opened Bytes
  import opened Splicing
  import opened Deliberation

  // ---- Rounds and texts ----

  method ResolveSlotIn(slots: seq<Slot>, start: int, end: int) returns (r: Result<Option<Id>, RepositoryError>)
    ensures r == ResolveSlot(slots, start, end)
  {
    for i := 0 to |slots|
      invariant ResolveSlot(slots[i..], start, end) == ResolveSlot(slots, start, end)
    {
      var slot := slots[i];
      assert slots[i..][0] == slot && slots[i..][1..] == slots[i + 1..];
      if slot.start == start && slot.end == end {
        return Ok(Some(slot.id));
      }
      if start < slot.end && end > slot.start {
        return Err(OverlappingSlot);
      }
    }
    return Ok(None);
  }

  /** Rounds are not indexed by text, so all of them are scanned. */
  method DropTexts(l: Library, targets: set<Id>) returns (l': Library)
    ensures l' == WithoutTexts(l, targets)
  {
    var rounds, roundIndex, todo := l.rounds, l.roundIndex, l.rounds.Keys;
    while todo != {}
      invariant todo <= l.rounds.Keys
      invariant rounds == map r | r in l.rounds && (r in todo || l.rounds[r].textId !in targets) :: l.rounds[r]
      invariant roundIndex == set e | e in l.roundIndex
        && !(e.0 in targets && e.1 in l.rounds && e.1 !in todo && l.rounds[e.1].textId == e.0)
    {
      var r :| r in todo;
      if l.rounds[r].textId in targets {
        rounds := rounds - {r};
        roundIndex := roundIndex - {(l.rounds[r].textId, r)};
      }
      todo := todo - {r};
    }
    l' := Library(l.texts - targets, rounds, l.currentRound - targets, l.roundCount - targets,
      l.supersededBy - targets, roundIndex);
  }

  method FindTextsBy(l: Library, user: Id) returns (targets: set<Id>)
    ensures targets == TextsBy(l, user)
  {
    targets := {};
    var todo := l.texts.Keys;
    while todo != {}
      invariant todo <= l.texts.Keys
      invariant targets == set t | t in l.texts && t !in todo && l.texts[t].createdBy == user
    {
      var t :| t in todo;
      if l.texts[t].createdBy == user {
        targets := targets + {t};
      }
      todo := todo - {t};
    }
  }

  // ---- Votes and fragments ----

  /** The vote, the choice, and the vote it replaces withdrawn. */
  method RecordVote(b: Ballots, fragmentId: Id, user: Id, now: int) returns (b': Ballots)
    requires fragmentId in b.fragments
    ensures b' == WithVote(b, fragmentId, user, now)
    ensures user in Voters(b', fragmentId)
  {
    var choice := ChoiceKey(b.fragments[fragmentId], user);
    var votes := b.votes[(fragmentId, user) := now];
    if choice in b.choices && b.choices[choice] != fragmentId {
      votes := votes - {(b.choices[choice], user)};
    }
    b' := Ballots(b.fragments, b.fragmentIndex, votes, b.choices[choice := fragmentId]);
    assert (fragmentId, user) in b'.votes && (fragmentId, user).0 == fragmentId && (fragmentId, user).1 == user;
  }

  method DropVotesBy(votes: map<(Id, Id), int>, user: Id) returns (left: map<(Id, Id), int>)
    ensures left == map k | k in votes && k.1 != user :: votes[k]
  {
    left := votes;
    var todo := votes.Keys;
    while todo != {}
      invariant todo <= votes.Keys
      invariant left == map k | k in votes && (k in todo || k.1 != user) :: votes[k]
    {
      var k :| k in todo;
      if k.1 == user {
        left := left - {k};
      }
      todo := todo - {k};
    }
  }

  method DropChoicesBy(choices: map<(Id, Id, Id), Id>, user: Id) returns (left: map<(Id, Id, Id), Id>)
    ensures left == map k | k in choices && k.2 != user :: choices[k]
  {
    left := choices;
    var todo := choices.Keys;
    while todo != {}
      invariant todo <= choices.Keys
      invariant left == map k | k in choices && (k in todo || k.2 != user) :: choices[k]
    {
      var k :| k in todo;
      if k.2 == user {
        left := left - {k};
      }
      todo := todo - {k};
    }
  }

  method DropVoter(b: Ballots, user: Id) returns (b': Ballots)
    ensures b' == WithoutVoter(b, user)
  {
    var votes := DropVotesBy(b.votes, user);
    var choices := DropChoicesBy(b.choices, user);
    b' := Ballots(b.fragments, b.fragmentIndex, votes, choices);
  }

  /** The choices left once those aimed at a fragment by all but some users are withdrawn. */
  ghost function Aimed(b: Ballots, f: Id, choices: map<(Id, Id, Id), Id>, users: set<Id>): map<(Id, Id, Id), Id>
    requires choices.Keys <= b.choices.Keys
  {
    map c | c in choices && !(b.choices[c] == f && c.2 !in users) :: choices[c]
  }

  lemma OneMoreVoter(b: Ballots, f: Id, choices: map<(Id, Id, Id), Id>, users: set<Id>, user: Id)
    requires VotesOk(b) && f in b.fragments && choices.Keys <= b.choices.Keys && user in users
    ensures var choice := ChoiceKey(b.fragments[f], user);
            Aimed(b, f, choices, users - {user}) ==
              if choice in b.choices && b.choices[choice] == f then Aimed(b, f, choices, users) - {choice}
              else Aimed(b, f, choices, users)
  {
    var choice := ChoiceKey(b.fragments[f], user);
    forall c | c in b.choices && b.choices[c] == f && c.2 == user
      ensures c == choice
    {
    }
  }

  /** The votes, without those for `f` of users other than these. */
  ghost function Cast(f: Id, votes: map<(Id, Id), int>, users: set<Id>): map<(Id, Id), int>
  {
    map k | k in votes && !(k.0 == f && k.1 !in users) :: votes[k]
  }

  lemma OneLessCast(f: Id, votes: map<(Id, Id), int>, users: set<Id>, user: Id)
    requires user in users
    ensures Cast(f, votes, users - {user}) == Cast(f, votes, users) - {(f, user)}
  {
  }

  lemma AllAimed(b: Ballots, f: Id, votes: map<(Id, Id), int>, choices: map<(Id, Id, Id), Id>)
    requires VotesOk(b) && votes.Keys <= b.votes.Keys && choices.Keys <= b.choices.Keys
    ensures votes == Cast(f, votes, Voters(b, f)) && choices == Aimed(b, f, choices, Voters(b, f))
  {
    VotersAreAll(b, f);
  }

  /** The votes for one fragment, and the choices still aimed at it. */
  method DropVotesFor(b: Ballots, f: Id, votes: map<(Id, Id), int>, choices: map<(Id, Id, Id), Id>)
    returns (votes': map<(Id, Id), int>, choices': map<(Id, Id, Id), Id>)
    requires VotesOk(b) && f in b.fragments
    requires votes.Keys <= b.votes.Keys && choices.Keys <= b.choices.Keys
    ensures votes' == map k | k in votes && k.0 != f :: votes[k]
    ensures choices' == map c | c in choices && b.choices[c] != f :: choices[c]
  {
    var voters := Voters(b, f);
    AllAimed(b, f, votes, choices);
    votes', choices' := votes, choices;
    hide Voters;
    var todo := voters;
    while todo != {}
      invariant todo <= voters
      invariant votes' == Cast(f, votes, todo)
      invariant choices' == Aimed(b, f, choices, todo)
    {
      var user :| user in todo;
      OneMoreVoter(b, f, choices, todo, user);
      OneLessCast(f, votes, todo, user);
      hide Aimed;
      hide Cast;
      hide VotesOk;
      votes' := votes' - {(f, user)};
      var choice := ChoiceKey(b.fragments[f], user);
      if choice in b.choices && b.choices[choice] == f {
        choices' := choices' - {choice};
      }
      todo := todo - {user};
    }
  }

  /** One fragment with its index entry, the votes for it and the choices still aimed at it. */
  method DropFragment(b: Ballots, ghost texts: set<Id>, ghost gone: set<Id>, next: Ballots,
      f: Id) returns (next': Ballots)
    requires FragmentsOk(texts, b) && VotesOk(b) && f in b.fragments && next == WithoutFragments(b, gone)
    ensures next' == WithoutFragments(b, gone + {f})
  {
    var fragment := b.fragments[f];
    var votes, choices := DropVotesFor(b, f, next.votes, next.choices);
    var index := next.fragmentIndex - {(fragment.textId, fragment.slotId, f)};
    next' := Ballots(next.fragments - {f}, index, votes, choices);
    FragmentGone(b, texts, gone, f, index);
  }

  lemma FragmentGone(b: Ballots, texts: set<Id>, gone: set<Id>, f: Id, index: set<(Id, Id, Id)>)
    requires FragmentsOk(texts, b) && f in b.fragments
    requires index == WithoutFragments(b, gone).fragmentIndex - {(b.fragments[f].textId, b.fragments[f].slotId, f)}
    ensures var next, next' := WithoutFragments(b, gone), WithoutFragments(b, gone + {f});
            && next'.fragments == next.fragments - {f} && next'.fragmentIndex == index
            && next'.votes == (map k | k in next.votes && k.0 != f :: next.votes[k])
            && next'.choices == (map c | c in next.choices && b.choices[c] != f :: next.choices[c])
  {
  }

  lemma VotersAreAll(b: Ballots, f: Id)
    requires VotesOk(b)
    ensures forall k :: k in b.votes && k.0 == f ==> k.1 in Voters(b, f)
    ensures forall c :: c in b.choices && b.choices[c] == f ==> c.2 in Voters(b, f)
  {
    forall c | c in b.choices && b.choices[c] == f
      ensures c.2 in Voters(b, f)
    {
      assert (f, c.2) in b.votes;
    }
  }

  method DropFragmentsBy(b: Ballots, ghost texts: set<Id>, user: Id) returns (b': Ballots)
    requires FragmentsOk(texts, b) && VotesOk(b)
    ensures b' == WithoutFragments(b, FragmentsBy(b, user))
  {
    b' := b;
    var todo := b.fragments.Keys;
    ghost var gone: set<Id> := {};
    NothingGone(b);
    while todo != {}
      invariant todo <= b.fragments.Keys && b' == WithoutFragments(b, gone)
      invariant gone == set f | f in b.fragments && f !in todo && b.fragments[f].authorId == user
    {
      hide WithoutFragments;
      hide FragmentsOk;
      hide VotesOk;
      var f :| f in todo;
      if b.fragments[f].authorId == user {
        b' := DropFragment(b, texts, gone, b', f);
        gone := gone + {f};
      }
      todo := todo - {f};
    }
    assert gone == FragmentsBy(b, user);
  }

  lemma NothingGone(b: Ballots)
    ensures WithoutFragments(b, {}) == b && WithoutBallotsOn(b, {}) == b
  {
    assert FragmentsOn(b, {}) == {};
  }

  /** One text's share of the index: its fragments go, with every vote on them. */
  method DropIndexed(b: Ballots, textId: Id, fragments: map<Id, Fragment>, index: set<(Id, Id, Id)>,
      votes: map<(Id, Id), int>)
    returns (fragments': map<Id, Fragment>, index': set<(Id, Id, Id)>, votes': map<(Id, Id), int>)
    ensures var met := FragmentsOn(b, {textId});
            && fragments' == fragments - met
            && index' == (set e | e in index && !(e in b.fragmentIndex && e.0 == textId))
            && votes' == map k | k in votes && k.0 !in met :: votes[k]
  {
    var entries := set e | e in b.fragmentIndex && e.0 == textId;
    fragments', index', votes' := fragments, index, votes;
    var todo := entries;
    ghost var met: set<Id> := {};
    while todo != {}
      invariant todo <= entries && met <= FragmentsOn(b, {textId})
      invariant forall e :: e in entries ==> e in todo || e.2 in met
      invariant fragments' == fragments - met && index' == index - (entries - todo)
      invariant votes' == map k | k in votes && k.0 !in met :: votes[k]
    {
      var e :| e in todo;
      index' := index' - {e};
      fragments' := fragments' - {e.2};
      votes' := map k | k in votes' && k.0 != e.2 :: votes'[k];
      met := met + {e.2};
      todo := todo - {e};
    }
    assert met == FragmentsOn(b, {textId});
  }

  /** What competed on one text, then the choices made on it. */
  method DropBallotsOf(b: Ballots, ghost gone: set<Id>, next: Ballots, textId: Id) returns (next': Ballots)
    requires next == WithoutBallotsOn(b, gone)
    ensures next' == WithoutBallotsOn(b, gone + {textId})
  {
    var fragments, index, votes := DropIndexed(b, textId, next.fragments, next.fragmentIndex, next.votes);
    next' := Ballots(fragments, index, votes, map c | c in next.choices && c.0 != textId :: next.choices[c]);
    BallotsGone(b, gone, textId, next');
  }

  lemma BallotsGone(b: Ballots, gone: set<Id>, textId: Id, next': Ballots)
    requires var next, met := WithoutBallotsOn(b, gone), FragmentsOn(b, {textId});
             && next'.fragments == next.fragments - met
             && next'.fragmentIndex == (set e | e in next.fragmentIndex && !(e in b.fragmentIndex && e.0 == textId))
             && next'.votes == (map k | k in next.votes && k.0 !in met :: next.votes[k])
             && next'.choices == (map c | c in next.choices && c.0 != textId :: next.choices[c])
    ensures next' == WithoutBallotsOn(b, gone + {textId})
  {
    MoreFragmentsOn(b, gone, textId);
    hide FragmentsOn;
    var all := WithoutBallotsOn(b, gone + {textId});
    assert next'.fragments == all.fragments;
    assert next'.fragmentIndex == all.fragmentIndex;
    assert next'.votes == all.votes;
    assert next'.choices == all.choices;
  }

  lemma MoreFragmentsOn(b: Ballots, gone: set<Id>, textId: Id)
    ensures FragmentsOn(b, gone + {textId}) == FragmentsOn(b, gone) + FragmentsOn(b, {textId})
  {
    forall f | f in FragmentsOn(b, gone + {textId})
      ensures f in FragmentsOn(b, gone) + FragmentsOn(b, {textId})
    {
      var e :| e in b.fragmentIndex && e.0 in gone + {textId} && e.2 == f;
      if e.0 in gone {
        assert f in FragmentsOn(b, gone);
      }
    }
    forall f | f in FragmentsOn(b, gone)
      ensures f in FragmentsOn(b, gone + {textId})
    {
      var e :| e in b.fragmentIndex && e.0 in gone && e.2 == f;
      assert e.0 in gone + {textId};
    }
  }

  method DropBallotsOn(b: Ballots, targets: set<Id>) returns (b': Ballots)
    ensures b' == WithoutBallotsOn(b, targets)
  {
    NothingGone(b);
    hide WithoutBallotsOn;
    b' := b;
    var todo := targets;
    ghost var gone: set<Id> := {};
    while todo != {}
      invariant todo <= targets && gone == targets - todo && b' == WithoutBallotsOn(b, gone)
    {
      var t :| t in todo;
      b' := DropBallotsOf(b, gone, b', t);
      todo := todo - {t};
      gone := gone + {t};
    }
    assert gone == targets;
  }

  // ---- Subscriptions and labels ----

  method DropFollower(f: Follows, user: Id) returns (f': Follows)
    ensures f' == WithoutFollower(f, user)
  {
    var entries := set e | e in f.index && e.0 == user;
    var subs, index, todo := f.subs, f.index, entries;
    while todo != {}
      invariant todo <= entries
      invariant subs ==
        map k | k in f.subs && !(k.1 == user && (user, k.0) in f.index && (user, k.0) !in todo) :: f.subs[k]
      invariant index == f.index - (entries - todo)
    {
      var e :| e in todo;
      index := index - {e};
      subs := subs - {(e.1, user)};
      todo := todo - {e};
    }
    f' := Follows(subs, index);
  }

  method DropFollowed(f: Follows, textId: Id) returns (f': Follows)
    ensures f' == WithoutFollowed(f, textId)
  {
    var users := Subscribers(f, textId);
    assert forall k :: k in f.subs && k.0 == textId ==> k.1 in users;
    var subs, index, todo := f.subs, f.index, users;
    while todo != {}
      invariant todo <= users
      invariant subs == map k | k in f.subs && !(k.0 == textId && k.1 !in todo) :: f.subs[k]
      invariant index == set e | e in f.index && !(e.1 == textId && e.0 in users && e.0 !in todo)
    {
      var user :| user in todo;
      subs := subs - {(textId, user)};
      index := index - {(user, textId)};
      todo := todo - {user};
    }
    f' := Follows(subs, index);
  }

  /** Each subscription pair is replaced by one pointing at the fork. */
  method MoveFollowers(f: Follows, from: Id, to: Id, now: int) returns (f': Follows)
    requires from != to
    ensures f' == MovedFollowers(f, from, to, now)
  {
    var users := Subscribers(f, from);
    assert forall k :: k in f.subs && k.0 == from ==> k.1 in users;
    var subs, index, todo := f.subs, f.index, users;
    while todo != {}
      invariant todo <= users
      invariant forall k :: k in subs <==>
        (k in f.subs && !(k.0 == from && k.1 !in todo)) || (k.0 == to && k.1 in users && k.1 !in todo)
      invariant forall k :: k in subs ==>
        subs[k] == if k.0 == to && k.1 in users && k.1 !in todo then now else f.subs[k]
      invariant forall e :: e in index <==>
        (e in f.index && !(e.1 == from && e.0 in users && e.0 !in todo)) || (e.1 == to && e.0 in users && e.0 !in todo)
    {
      var user :| user in todo;
      subs := (subs - {(from, user)})[(to, user) := now];
      index := index - {(user, from)} + {(user, to)};
      todo := todo - {user};
    }
    f' := Follows(subs, index);
    MovedIs(f, from, to, now, f');
  }

  lemma MovedIs(f: Follows, from: Id, to: Id, now: int, f': Follows)
    requires from != to
    requires var users := Subscribers(f, from);
             && (forall k :: k in f'.subs <==>
               (k in f.subs && !(k.0 == from && k.1 in users)) || (k.0 == to && k.1 in users))
             && (forall k :: k in f'.subs ==> f'.subs[k] == if k.0 == to && k.1 in users then now else f.subs[k])
             && (forall e :: e in f'.index <==>
                   (e in f.index && !(e.1 == from && e.0 in users)) || (e.1 == to && e.0 in users))
    ensures f' == MovedFollowers(f, from, to, now)
  {
    var g := MovedFollowers(f, from, to, now);
    forall k
      ensures k in f'.subs <==> k in g.subs
    {
      assert k == (k.0, k.1);
      assert k in f.subs && k.0 == from ==> k.1 in Subscribers(f, from);
    }
    assert f'.subs == g.subs;
    forall e
      ensures e in f'.index <==> e in g.index
    {
      assert e == (e.0, e.1);
    }
  }

  method AddTags(tagIndex: set<(Tag, Id)>, tags: seq<Tag>, textId: Id) returns (added: set<(Tag, Id)>)
    ensures added == tagIndex + TagEntries(tags, textId)
  {
    added := tagIndex;
    for i := 0 to |tags|
      invariant added == tagIndex + TagEntries(tags[..i], textId)
    {
      assert tags[..i + 1] == tags[..i] + [tags[i]];
      added := added + {(tags[i], textId)};
    }
    assert tags[..|tags|] == tags;
  }

  method MoveTags(tagIndex: set<(Tag, Id)>, tags: seq<Tag>, from: Id, to: Id) returns (moved: set<(Tag, Id)>)
    requires from != to
    ensures moved == tagIndex - TagEntries(tags, from) + TagEntries(tags, to)
  {
    moved := tagIndex;
    for i := 0 to |tags|
      invariant moved == tagIndex - TagEntries(tags[..i], from) + TagEntries(tags[..i], to)
    {
      assert tags[..i + 1] == tags[..i] + [tags[i]];
      moved := moved - {(tags[i], from)} + {(tags[i], to)};
    }
    assert tags[..|tags|] == tags;
  }

  // ---- Winners ----

  /** Whichever of a slot's fragments is best, found under any order of the scan. */
  method WinningFragment(b: Ballots, ghost texts: set<Id>, textId: Id, slotId: Id) returns (r: Result<Id,
      RepositoryError>)
    requires FragmentsOk(texts, b)
    ensures Candidates(b, textId, slotId) <= b.fragments.Keys
    ensures r.Ok? <==> Candidates(b, textId, slotId) != {}
    ensures r.Ok? ==> r.value == Winner(b, textId, slotId)
    ensures r.Ok? <==> exists f :: Contends(b, textId, slotId, f)
    ensures r.Ok? ==> Wins(b, textId, slotId, r.value)
    ensures r.Err? ==> r.error == NotFound
  {
    CandidatesAre(texts, b, textId, slotId);
    var candidates := Candidates(b, textId, slotId);
    if candidates == {} {
      return Err(NotFound);
    }
    var best :| best in candidates;
    var todo := candidates - {best};
    while todo != {}
      invariant todo <= candidates && BestOf(b, candidates - todo, best)
    {
      var f :| f in todo;
      BestOfOneMore(b, candidates - todo, best, f);
      assert candidates - (todo - {f}) == candidates - todo + {f};
      if IsBetter(ScoreOf(b, f), ScoreOf(b, best)) {
        best := f;
      }
      todo := todo - {f};
    }
    assert candidates - todo == candidates;
    BestIsUnique(b, candidates, best, Winner(b, textId, slotId));
    WinsExactly(texts, b, textId, slotId, best);
    return Ok(best);
  }

  lemma BestOfOneMore(b: Ballots, among: set<Id>, best: Id, f: Id)
    requires among + {f} <= b.fragments.Keys && f !in among && BestOf(b, among, best)
    ensures BestOf(b, among + {f}, if IsBetter(ScoreOf(b, f), ScoreOf(b, best)) then f else best)
  {
    BetterIsStrictTotalOrder(ScoreOf(b, f), ScoreOf(b, best), ScoreOf(b, f));
    if IsBetter(ScoreOf(b, f), ScoreOf(b, best)) {
      forall g | g in among
        ensures IsBetter(ScoreOf(b, f), ScoreOf(b, g))
      {
        BetterIsStrictTotalOrder(ScoreOf(b, f), ScoreOf(b, best), ScoreOf(b, g));
      }
    }
  }

  /** The winner of every slot in turn, with its votes. */
  method FindWinners(b: Ballots, ghost texts: set<Id>, textId: Id, slots: seq<Slot>)
    returns (r: Result<(map<Id, string>, seq<SlotResult>), RepositoryError>)
    requires FragmentsOk(texts, b)
    requires forall i, j :: 0 <= i < j < |slots| ==> slots[i].id != slots[j].id
    ensures r.Ok? <==> Decidable(b, textId, slots)
    ensures r.Ok? ==> r.value.0 == Winners(b, textId, slots)
    ensures r.Ok? ==> |r.value.1| == |slots| && forall i :: 0 <= i < |slots| ==>
      var w := Winner(b, textId, slots[i].id); r.value.1[i] == SlotResult(slots[i].id, w, |Voters(b, w)|)
    ensures r.Ok? ==> forall i :: 0 <= i < |slots| ==>
      Wins(b, textId, slots[i].id, r.value.1[i].fragment)
    ensures r.Err? ==> r.error == NotFound
  {
    var winners: map<Id, string> := map[];
    var results := [];
    NoneDecided(b, textId, slots);
    hide Wins;
    hide Winner;
    hide Winners;
    hide Candidates;
    hide Contends;
    hide FragmentsOk;
    for i := 0 to |slots|
      invariant Decidable(b, textId, slots[..i]) && winners == Winners(b, textId, slots[..i])
      invariant |results| == i && forall k :: 0 <= k < i ==>
        var w := Winner(b, textId, slots[k].id); results[k] == SlotResult(slots[k].id, w, |Voters(b, w)|)
      invariant forall k :: 0 <= k < i ==> Wins(b, textId, slots[k].id, results[k].fragment)
    {
      var found := WinningFragment(b, texts, textId, slots[i].id);
      if found.Err? {
        return Err(NotFound);
      }
      WinnersOneMore(b, textId, slots, i);
      winners := winners[slots[i].id := b.fragments[found.value].content];
      results := results + [SlotResult(slots[i].id, found.value, |Voters(b, found.value)|)];
    }
    assert slots[..|slots|] == slots;
    return Ok((winners, results));
  }

  lemma NoneDecided(b: Ballots, textId: Id, slots: seq<Slot>)
    ensures Decidable(b, textId, slots[..0]) && Winners(b, textId, slots[..0]) == map[]
  {
  }

  lemma WinnersOneMore(b: Ballots, textId: Id, slots: seq<Slot>, i: nat)
    requires i < |slots| && Decidable(b, textId, slots[..i])
    requires Candidates(b, textId, slots[i].id) != {} && Candidates(b, textId, slots[i].id) <= b.fragments.Keys
    ensures Decidable(b, textId, slots[..i + 1])
    ensures Winners(b, textId, slots[..i + 1])
      == Winners(b, textId, slots[..i])[slots[i].id := b.fragments[Winner(b, textId, slots[i].id)].content]
  {
    var front, more := slots[..i], slots[..i + 1];
    assert forall k :: 0 <= k < |more| ==> more[k] == if k < i then front[k] else slots[i];
    assert SlotIds(more) == SlotIds(front) + {slots[i].id} by {
      forall id | id in SlotIds(front) + {slots[i].id}
        ensures id in SlotIds(more)
      {
        if id in SlotIds(front) {
          var k :| 0 <= k < |front| && front[k].id == id;
          assert more[k].id == id;
        } else {
          assert more[i].id == id;
        }
      }
    }
  }
}
