/** Rebuilding a text from the winners of its slots (`spliceContent` in api/queel/repository.go). */
module Splicing {
  import opened Bytes
  import opened Sorting

  /** An id as handed out: hexadecimal digits, so free of the separator used in keys. */
  datatype Id = Id(name: Key)

  /** A range [start, end) of runes somebody opened for proposals, with the number of the round it was opened in. */
  datatype Slot = Slot(id: Id, start: nat, end: nat, round: nat)

  predicate Apart(a: Slot, b: Slot)
  {
    a.end <= b.start || b.end <= a.start
  }

  /** Slots are non-empty, within the content, pairwise disjoint, and told apart by their ids. */
  predicate SlotsFit(slots: seq<Slot>, length: nat)
  {
    && (forall i :: 0 <= i < |slots| ==> slots[i].start < slots[i].end <= length)
    && forall i, j :: 0 <= i < j < |slots| ==> Apart(slots[i], slots[j]) && slots[i].id != slots[j].id
  }

  predicate Before(a: Slot, b: Slot)
  {
    a.start < b.start
  }

  /** In text order, with nothing but possibly empty gaps between. */
  predicate InOrder(slots: seq<Slot>, cursor: nat, length: nat)
    decreases |slots|
  {
    if slots == [] then cursor <= length
    else cursor <= slots[0].start <= slots[0].end && InOrder(slots[1..], slots[0].end, length)
  }

  predicate Known(slots: seq<Slot>, winners: map<Id, string>)
  {
    forall i :: 0 <= i < |slots| ==> slots[i].id in winners
  }

  // ---- What the content becomes ----

  /** What lies outside the slots is copied, each slot's range gives way to its winner. */
  function Splice(content: string, slots: seq<Slot>, winners: map<Id, string>, cursor: nat): string
    requires InOrder(slots, cursor, |content|) && Known(slots, winners)
    decreases |slots|
  {
    if slots == [] then content[cursor..]
    else
      InOrderBounds(slots, cursor, |content|);
      content[cursor..slots[0].start] + winners[slots[0].id] + Splice(content, slots[1..], winners, slots[0].end)
  }

  lemma {:induction false} InOrderBounds(slots: seq<Slot>, cursor: nat, length: nat)
    requires InOrder(slots, cursor, length)
    ensures cursor <= length
    ensures forall i :: 0 <= i < |slots| ==> cursor <= slots[i].start <= slots[i].end <= length
    decreases |slots|
  {
    if slots != [] {
      InOrderBounds(slots[1..], slots[0].end, length);
      forall i | 0 < i < |slots|
        ensures cursor <= slots[i].start <= slots[i].end <= length
      {
        assert slots[i] == slots[1..][i - 1];
      }
    }
  }

  /** By how much the slots grow, in all. */
  function Growth(slots: seq<Slot>, winners: map<Id, string>): int
    requires Known(slots, winners)
  {
    if slots == [] then 0
    else |winners[slots[0].id]| - (slots[0].end - slots[0].start) + Growth(slots[1..], winners)
  }

  lemma {:induction false} SpliceLength(content: string, slots: seq<Slot>, winners: map<Id, string>, cursor: nat)
    requires InOrder(slots, cursor, |content|) && Known(slots, winners)
    ensures |Splice(content, slots, winners, cursor)| == |content| - cursor + Growth(slots, winners)
    decreases |slots|
  {
    InOrderBounds(slots, cursor, |content|);
    if slots != [] {
      SpliceLength(content, slots[1..], winners, slots[0].end);
    }
  }

  /** Every slot's winner is the original content of the slot. */
  predicate Unchanged(content: string, slots: seq<Slot>, winners: map<Id, string>)
  {
    forall i :: 0 <= i < |slots| ==>
      && slots[i].id in winners && slots[i].start <= slots[i].end <= |content|
      && winners[slots[i].id] == content[slots[i].start..slots[i].end]
  }

  /** Where every seed wins the text stays as it is. */
  lemma {:induction false} SeedsSpliceToSame(content: string, slots: seq<Slot>, winners: map<Id, string>, cursor: nat)
    requires InOrder(slots, cursor, |content|) && Unchanged(content, slots, winners)
    ensures Splice(content, slots, winners, cursor) == content[cursor..]
    decreases |slots|
  {
    if slots != [] {
      InOrderBounds(slots, cursor, |content|);
      SeedsSpliceToSame(content, slots[1..], winners, slots[0].end);
      Pieces(content, cursor, slots[0].start, slots[0].end);
    }
  }

  lemma Pieces(content: string, a: nat, b: nat, c: nat)
    requires a <= b <= c <= |content|
    ensures content[a..b] + content[b..c] + content[c..] == content[a..]
  {
  }

  predicate Outside(slots: seq<Slot>, i: nat)
  {
    forall k :: 0 <= k < |slots| ==> i < slots[k].start || slots[k].end <= i
  }

  /** Where a rune outside every slot ends up: as far along as the slots before it grew. */
  function Moved(slots: seq<Slot>, winners: map<Id, string>, i: nat): int
    requires Known(slots, winners)
  {
    if slots == [] || i < slots[0].start then i
    else Moved(slots[1..], winners, i) + |winners[slots[0].id]| - (slots[0].end - slots[0].start)
  }

  /** Runes outside the slots are copied unchanged. */
  lemma {:induction false} OutsideCopied(content: string, slots: seq<Slot>, winners: map<Id, string>,
      cursor: nat, i: nat)
    requires InOrder(slots, cursor, |content|) && Known(slots, winners)
    requires cursor <= i < |content| && Outside(slots, i)
    ensures 0 <= Moved(slots, winners, i) - cursor < |Splice(content, slots, winners, cursor)|
    ensures Splice(content, slots, winners, cursor)[Moved(slots, winners, i) - cursor] == content[i]
    decreases |slots|
  {
    InOrderBounds(slots, cursor, |content|);
    if slots != [] && i >= slots[0].start {
      OutsideCopied(content, slots[1..], winners, slots[0].end, i);
      Unfold(content, slots, winners, cursor, 0);
      hide Splice;
      hide Shifted;
      var rest := Splice(content, slots[1..], winners, slots[0].end);
      Third(content[cursor..slots[0].start], winners[slots[0].id], rest, Moved(slots[1..], winners, i) - slots[0].end);
    }
  }

  lemma Third(a: string, b: string, c: string, i: nat)
    requires i < |c|
    ensures (a + b + c)[|a| + |b| + i] == c[i]
  {
  }

  /** Runes outside the slots keep their order. */
  lemma {:induction false} OutsideKeepsOrder(slots: seq<Slot>, winners: map<Id, string>, cursor: nat,
      length: nat, i: nat, j: nat)
    requires InOrder(slots, cursor, length) && Known(slots, winners)
    requires cursor <= i < j && Outside(slots, i) && Outside(slots, j)
    ensures Moved(slots, winners, i) < Moved(slots, winners, j)
    decreases |slots|
  {
    if slots != [] && j >= slots[0].start {
      if i >= slots[0].start {
        OutsideKeepsOrder(slots[1..], winners, slots[0].end, length, i, j);
      } else {
        MovedFromEnd(slots[1..], winners, slots[0].end, length, j);
      }
    }
  }

  lemma {:induction false} MovedFromEnd(slots: seq<Slot>, winners: map<Id, string>, cursor: nat, length: nat, i: nat)
    requires InOrder(slots, cursor, length) && Known(slots, winners)
    requires cursor <= i && Outside(slots, i)
    ensures Moved(slots, winners, i) >= cursor
    decreases |slots|
  {
    if slots != [] && i >= slots[0].start {
      MovedFromEnd(slots[1..], winners, slots[0].end, length, i);
    }
  }

  // ---- Undoing a splice ----

  /** The ranges the winners occupy in the new content, where `cursor` has come to be `at`. */
  function Shifted(slots: seq<Slot>, winners: map<Id, string>, cursor: nat, at: nat, length: nat): (r: seq<Slot>)
    requires InOrder(slots, cursor, length) && Known(slots, winners)
    decreases |slots|
  {
    if slots == [] then []
    else
      var start: nat := at + (slots[0].start - cursor);
      var end := start + |winners[slots[0].id]|;
      [Slot(slots[0].id, start, end, slots[0].round)] + Shifted(slots[1..], winners, slots[0].end, end, length)
  }

  /** Splicing into these ranges, from a position on, yields this text. */
  ghost predicate GivesBack(content: string, back: seq<Slot>, originals: map<Id, string>, at: nat, text: string)
  {
    && InOrder(back, at, |content|) && Known(back, originals)
    && Splice(content, back, originals, at) == text
  }

  /**
   * Splicing the original contents into the ranges the winners came to occupy gives the old text back;
   * stated for the text from a cursor on, with `prefix` standing for whatever the new text holds before it.
   */
  lemma {:induction false} SpliceBack(content: string, slots: seq<Slot>, winners: map<Id, string>,
      originals: map<Id, string>,
      cursor: nat, prefix: string)
    requires InOrder(slots, cursor, |content|) && Known(slots, winners)
    requires Unchanged(content, slots, originals)
    ensures cursor <= |content|
    ensures GivesBack(prefix + Splice(content, slots, winners, cursor),
      Shifted(slots, winners, cursor, |prefix|, |content|),
      originals, |prefix|, content[cursor..])
    decreases |slots|
  {
    hide InOrder;
    hide Known;
    hide Unchanged;
    hide GivesBack;
    hide Splice;
    hide Shifted;
    if slots == [] {
      NothingBack(content, winners, originals, cursor, prefix);
    } else {
      Unfold(content, slots, winners, cursor, |prefix|);
      UnfoldUnchanged(content, slots, originals, cursor);
      var first, rest := slots[0], slots[1..];
      var gap, won := content[cursor..first.start], winners[first.id];
      var longer := prefix + gap + won;
      SpliceBack(content, rest, winners, originals, first.end, longer);
      SpliceBackStep(content, first, originals, cursor, prefix, won,
        Splice(content, rest, winners, first.end), Shifted(rest, winners, first.end, |longer|, |content|));
    }
  }

  lemma NothingBack(content: string, winners: map<Id, string>, originals: map<Id, string>, cursor: nat, prefix: string)
    requires InOrder([], cursor, |content|)
    ensures cursor <= |content|
    ensures GivesBack(prefix + Splice(content, [], winners, cursor), Shifted([], winners, cursor, |prefix|, |content|),
      originals, |prefix|, content[cursor..])
  {
    assert (prefix + content[cursor..])[|prefix|..] == content[cursor..];
  }

  /** The first slot's part of the new content, and of the shifted ranges. */
  lemma Unfold(content: string, slots: seq<Slot>, winners: map<Id, string>, cursor: nat, at: nat)
    requires InOrder(slots, cursor, |content|) && Known(slots, winners)
    requires slots != []
    ensures cursor <= slots[0].start <= slots[0].end <= |content| && slots[0].id in winners
    ensures InOrder(slots[1..], slots[0].end, |content|) && Known(slots[1..], winners)
    ensures var gap, won := content[cursor..slots[0].start], winners[slots[0].id];
            && Splice(content, slots, winners, cursor) == gap + won + Splice(content, slots[1..], winners, slots[0].end)
            && Shifted(slots, winners, cursor, at, |content|)
              == [Slot(slots[0].id, at + |gap|, at + |gap| + |won|, slots[0].round)]
                 + Shifted(slots[1..], winners, slots[0].end, at + |gap| + |won|, |content|)
  {
    InOrderBounds(slots, cursor, |content|);
  }

  lemma UnfoldUnchanged(content: string, slots: seq<Slot>, originals: map<Id, string>, cursor: nat)
    requires InOrder(slots, cursor, |content|) && Unchanged(content, slots, originals) && slots != []
    ensures Unchanged(content, slots[1..], originals)
    ensures slots[0].id in originals && slots[0].start <= slots[0].end <= |content|
    ensures originals[slots[0].id] == content[slots[0].start..slots[0].end]
  {
  }

  /** One slot more at the front. */
  lemma SpliceBackStep(content: string, first: Slot, originals: map<Id, string>, cursor: nat, prefix: string,
      won: string,
      rest: string, restBack: seq<Slot>)
    requires cursor <= first.start <= first.end <= |content|
    requires first.id in originals && originals[first.id] == content[first.start..first.end]
    requires var longer := prefix + content[cursor..first.start] + won;
             GivesBack(longer + rest, restBack, originals, |longer|, content[first.end..])
    ensures var gap := content[cursor..first.start];
            GivesBack(prefix + (gap + won + rest),
              [Slot(first.id, |prefix| + |gap|, |prefix + gap + won|, first.round)] + restBack,
              originals, |prefix|, content[cursor..])
  {
    var gap := content[cursor..first.start];
    var back := [Slot(first.id, |prefix| + |gap|, |prefix + gap + won|, first.round)] + restBack;
    Regroup(prefix, gap, won, rest);
    Middle(prefix, gap, won + rest);
    assert back[1..] == restBack;
    Pieces(content, cursor, first.start, first.end);
  }

  lemma Regroup(a: string, b: string, c: string, d: string)
    ensures a + (b + c + d) == (a + b + c) + d == a + b + (c + d)
  {
  }

  lemma Middle(a: string, b: string, c: string)
    ensures (a + b + c)[|a|..|a| + |b|] == b
  {
  }

  /** A shifted range is as wide as the winner in it: non-empty exactly if the winner is. */
  lemma {:induction false} ShiftedWidth(slots: seq<Slot>, winners: map<Id, string>, cursor: nat, at: nat,
      length: nat, i: nat)
    requires InOrder(slots, cursor, length) && Known(slots, winners)
    requires i < |slots|
    ensures var back := Shifted(slots, winners, cursor, at, length);
            |back| == |slots| && back[i].id == slots[i].id && back[i].end - back[i].start == |winners[slots[i].id]|
    decreases |slots|
  {
    if |slots| > 1 {
      var end: nat := at + (slots[0].start - cursor) + |winners[slots[0].id]|;
      ShiftedWidth(slots[1..], winners, slots[0].end, end, length, if i == 0 then 0 else i - 1);
    }
  }

  // ---- The order in which slots were opened does not matter ----

  /** The slots by start, as a pure sort. */
  function Arrange(slots: seq<Slot>): seq<Slot>
  {
    if slots == [] then [] else Place(Arrange(slots[..|slots| - 1]), slots[|slots| - 1])
  }

  function Place(sorted: seq<Slot>, slot: Slot): seq<Slot>
  {
    if sorted == [] then [slot]
    else if Before(slot, sorted[0]) then [slot] + sorted
    else [sorted[0]] + Place(sorted[1..], slot)
  }

  lemma {:induction false} PlaceElements(sorted: seq<Slot>, slot: Slot)
    ensures multiset(Place(sorted, slot)) == multiset(sorted) + multiset{slot}
  {
    if sorted != [] && !Before(slot, sorted[0]) {
      PlaceElements(sorted[1..], slot);
      assert sorted == [sorted[0]] + sorted[1..];
      assert Place(sorted, slot) == [sorted[0]] + Place(sorted[1..], slot);
      hide Place;
      hide Before;
    }
  }

  lemma {:induction false} ArrangeElements(slots: seq<Slot>)
    ensures multiset(Arrange(slots)) == multiset(slots)
  {
    if slots != [] {
      ArrangeElements(slots[..|slots| - 1]);
      PlaceElements(Arrange(slots[..|slots| - 1]), slots[|slots| - 1]);
      assert slots == slots[..|slots| - 1] + [slots[|slots| - 1]];
    }
  }

  predicate ByStart(slots: seq<Slot>)
  {
    forall i, j :: 0 <= i < j < |slots| ==> slots[i].start <= slots[j].start
  }

  lemma {:induction false} PlaceSorted(sorted: seq<Slot>, slot: Slot)
    requires ByStart(sorted)
    ensures ByStart(Place(sorted, slot))
  {
    if sorted != [] && !Before(slot, sorted[0]) {
      PlaceSorted(sorted[1..], slot);
      var rest := Place(sorted[1..], slot);
      PlaceElements(sorted[1..], slot);
      forall x | x in rest
        ensures sorted[0].start <= x.start
      {
        assert x in multiset(rest);
        if x != slot {
          assert x in sorted[1..];
        }
      }
    }
  }

  lemma {:induction false} ArrangeSorted(slots: seq<Slot>)
    ensures ByStart(Arrange(slots))
  {
    if slots != [] {
      ArrangeSorted(slots[..|slots| - 1]);
      PlaceSorted(Arrange(slots[..|slots| - 1]), slots[|slots| - 1]);
    }
  }

  ghost predicate DistinctStarts(slots: seq<Slot>)
  {
    forall x, y :: x in slots && y in slots && x.start == y.start ==> x == y
  }

  /** Slots that fit start at different places, so one set of slots has one order. */
  lemma {:induction false} OneOrder(a: seq<Slot>, b: seq<Slot>)
    requires multiset(a) == multiset(b) && ByStart(a) && ByStart(b)
    requires DistinctStarts(a)
    ensures a == b
  {
    SameLength(a, b);
    if a != [] {
      FirstIsLeast(a, b);
      Rest(a);
      Rest(b);
      hide ByStart;
      hide DistinctStarts;
      OneOrder(a[1..], b[1..]);
    }
  }

  lemma SameLength(a: seq<Slot>, b: seq<Slot>)
    requires multiset(a) == multiset(b)
    ensures |a| == |b|
  {
    assert |multiset(a)| == |multiset(b)|;
  }

  lemma FirstIsLeast(a: seq<Slot>, b: seq<Slot>)
    requires a != [] && b != [] && multiset(a) == multiset(b) && ByStart(a) && ByStart(b)
    requires DistinctStarts(a)
    ensures a[0] == b[0]
  {
    assert a[0] in multiset(b) && b[0] in multiset(a);
    assert a[0].start <= b[0].start;
    assert b[0].start <= a[0].start;
  }

  lemma Rest(a: seq<Slot>)
    requires a != [] && ByStart(a)
    ensures a == [a[0]] + a[1..] && multiset(a[1..]) == multiset(a) - multiset{a[0]}
    ensures ByStart(a[1..]) && (DistinctStarts(a) ==> DistinctStarts(a[1..]))
  {
    assert a == [a[0]] + a[1..];
    assert forall x :: x in a[1..] ==> x in a;
  }

  lemma FitStartsDiffer(slots: seq<Slot>, length: nat)
    requires SlotsFit(slots, length)
    ensures DistinctStarts(slots)
  {
    forall i, j | 0 <= i < j < |slots|
      ensures slots[i].start != slots[j].start
    {
      assert Apart(slots[i], slots[j]);
    }
  }

  /** Fitting is a property of the slots, not of the order they are listed in. */
  lemma FitPermuted(a: seq<Slot>, b: seq<Slot>, length: nat)
    requires multiset(a) == multiset(b) && SlotsFit(a, length)
    ensures SlotsFit(b, length)
  {
    forall i | 0 <= i < |b|
      ensures b[i].start < b[i].end <= length
    {
      assert b[i] in multiset(a);
    }
    forall i, j | 0 <= i < j < |b|
      ensures Apart(b[i], b[j]) && b[i].id != b[j].id
    {
      assert b[i] in multiset(a) && b[j] in multiset(a);
      var p :| 0 <= p < |a| && a[p] == b[i];
      var q :| 0 <= q < |a| && a[q] == b[j];
      if p == q {
        TwiceInSeq(b, i, j);
        OnceInSeq(a, a[p]);
      }
    }
  }

  /** Slots that fit, listed by start, are in text order. */
  lemma {:induction false} FitInOrder(slots: seq<Slot>, cursor: nat, length: nat)
    requires SlotsFit(slots, length) && ByStart(slots) && cursor <= length
    requires slots != [] ==> cursor <= slots[0].start
    ensures InOrder(slots, cursor, length)
    decreases |slots|
  {
    if slots != [] {
      var rest := slots[1..];
      assert forall i :: 0 <= i < |rest| ==> rest[i] == slots[i + 1];
      if rest != [] {
        assert Apart(slots[0], slots[1]);
      }
      FitInOrder(rest, slots[0].end, length);
    }
  }

  /** The new content, from slots in any order. */
  ghost function Spliced(content: string, slots: seq<Slot>, winners: map<Id, string>): string
    requires SlotsFit(slots, |content|) && Known(slots, winners)
  {
    ArrangeFits(slots, |content|);
    KnownPermuted(slots, Arrange(slots), winners);
    Splice(content, Arrange(slots), winners, 0)
  }

  lemma KnownPermuted(a: seq<Slot>, b: seq<Slot>, winners: map<Id, string>)
    requires multiset(a) == multiset(b) && Known(a, winners)
    ensures Known(b, winners)
  {
    forall i | 0 <= i < |b|
      ensures b[i].id in winners
    {
      assert b[i] in multiset(a);
    }
  }

  lemma ArrangeFits(slots: seq<Slot>, length: nat)
    requires SlotsFit(slots, length)
    ensures InOrder(Arrange(slots), 0, length)
    ensures multiset(Arrange(slots)) == multiset(slots)
  {
    ArrangeElements(slots);
    ArrangeSorted(slots);
    FitPermuted(slots, Arrange(slots), length);
    FitInOrder(Arrange(slots), 0, length);
  }

  /** Permuting the slots changes nothing. */
  lemma SplicedPermuted(content: string, a: seq<Slot>, b: seq<Slot>, winners: map<Id, string>)
    requires SlotsFit(a, |content|) && SlotsFit(b, |content|) && multiset(a) == multiset(b)
    requires Known(a, winners)
    ensures Known(b, winners)
    ensures Spliced(content, a, winners) == Spliced(content, b, winners)
  {
    hide Splice;
    hide Arrange;
    hide SlotsFit;
    hide Known;
    KnownPermuted(a, b, winners);
    ArrangePermuted(a, b, |content|);
  }

  lemma ArrangePermuted(a: seq<Slot>, b: seq<Slot>, length: nat)
    requires SlotsFit(a, length) && multiset(a) == multiset(b)
    ensures Arrange(a) == Arrange(b)
  {
    hide Arrange;
    ArrangeElements(a);
    ArrangeElements(b);
    ArrangeSorted(a);
    ArrangeSorted(b);
    FitPermuted(a, Arrange(a), length);
    FitStartsDiffer(Arrange(a), length);
    hide SlotsFit;
    hide DistinctStarts;
    OneOrder(Arrange(a), Arrange(b));
  }

  // ---- The laws, for slots in any order ----

  /** The length of the new content, and the text itself where every seed wins. */
  lemma SplicedLaws(content: string, slots: seq<Slot>, winners: map<Id, string>)
    requires SlotsFit(slots, |content|) && Known(slots, winners)
    ensures Known(Arrange(slots), winners)
    ensures |Spliced(content, slots, winners)| == |content| + Growth(Arrange(slots), winners)
    ensures Unchanged(content, slots, winners) ==> Spliced(content, slots, winners) == content
  {
    hide Splice;
    hide Arrange;
    hide Growth;
    var sorted := Arrange(slots);
    ArrangeFits(slots, |content|);
    KnownPermuted(slots, sorted, winners);
    SpliceLength(content, sorted, winners, 0);
    if Unchanged(content, slots, winners) {
      UnchangedPermuted(content, slots, sorted, winners);
      SeedsSpliceToSame(content, sorted, winners, 0);
    }
  }

  /** Runes outside every slot are copied unchanged and in order. */
  lemma SplicedOutside(content: string, slots: seq<Slot>, winners: map<Id, string>, i: nat, j: nat)
    requires SlotsFit(slots, |content|) && Known(slots, winners)
    requires i < |content| && Outside(slots, i)
    ensures Known(Arrange(slots), winners)
    ensures var new', to := Spliced(content, slots, winners), Moved(Arrange(slots), winners, i);
            0 <= to < |new'| && new'[to] == content[i]
    ensures i < j && Outside(slots, j) ==> Moved(Arrange(slots), winners, i) < Moved(Arrange(slots), winners, j)
  {
    hide Splice;
    hide Arrange;
    var sorted := Arrange(slots);
    ArrangeFits(slots, |content|);
    KnownPermuted(slots, sorted, winners);
    OutsidePermuted(slots, sorted, i);
    OutsideCopied(content, sorted, winners, 0, i);
    if i < j && Outside(slots, j) {
      OutsidePermuted(slots, sorted, j);
      OutsideKeepsOrder(sorted, winners, 0, |content|, i, j);
    }
  }

  lemma UnchangedPermuted(content: string, a: seq<Slot>, b: seq<Slot>, winners: map<Id, string>)
    requires multiset(a) == multiset(b) && Unchanged(content, a, winners)
    ensures Unchanged(content, b, winners)
  {
    forall i | 0 <= i < |b|
      ensures b[i] in a
    {
      assert b[i] in multiset(a);
    }
  }

  lemma OutsidePermuted(a: seq<Slot>, b: seq<Slot>, i: nat)
    requires multiset(a) == multiset(b) && Outside(a, i)
    ensures Outside(b, i)
  {
    forall k | 0 <= k < |b|
      ensures b[k] in a
    {
      assert b[k] in multiset(a);
    }
  }

  /** Ranges in order whose widths are positive fit, and are already sorted by start. */
  lemma {:induction false} InOrderFits(slots: seq<Slot>, cursor: nat, length: nat)
    requires InOrder(slots, cursor, length)
    requires forall i :: 0 <= i < |slots| ==> slots[i].start < slots[i].end
    requires forall i, j :: 0 <= i < j < |slots| ==> slots[i].id != slots[j].id
    ensures SlotsFit(slots, length) && ByStart(slots)
    decreases |slots|
  {
    InOrderBounds(slots, cursor, length);
    if slots != [] {
      var rest := slots[1..];
      assert forall i :: 0 <= i < |rest| ==> rest[i] == slots[i + 1];
      InOrderBounds(rest, slots[0].end, length);
      InOrderFits(rest, slots[0].end, length);
      forall i, j | 0 <= i < j < |slots|
        ensures Apart(slots[i], slots[j]) && slots[i].start <= slots[j].start
      {
        assert slots[j] == rest[j - 1];
        if i > 0 {
          assert slots[i] == rest[i - 1];
        }
      }
    }
  }

  lemma ArrangeNothing(slots: seq<Slot>, length: nat)
    requires SlotsFit(slots, length) && ByStart(slots)
    ensures Arrange(slots) == slots
  {
    ArrangeElements(slots);
    ArrangeSorted(slots);
    FitStartsDiffer(slots, length);
    OneOrder(slots, Arrange(slots));
  }

  /** Splicing can be undone: with no winner empty, the originals put into the winners' ranges restore the text. */
  lemma SplicedUndone(content: string, slots: seq<Slot>, winners: map<Id, string>, originals: map<Id, string>)
    requires SlotsFit(slots, |content|) && Known(slots, winners) && Unchanged(content, slots, originals)
    requires forall i :: 0 <= i < |slots| ==> winners[slots[i].id] != ""
    ensures InOrder(Arrange(slots), 0, |content|) && Known(Arrange(slots), winners)
    ensures var new', back := Spliced(content, slots, winners), Shifted(Arrange(slots), winners, 0, 0, |content|);
            SlotsFit(back, |new'|) && Known(back, originals) && Spliced(new', back, originals) == content
  {
    hide Splice;
    hide Shifted;
    hide Arrange;
    var sorted := Arrange(slots);
    ArrangeFits(slots, |content|);
    FitPermuted(slots, sorted, |content|);
    KnownPermuted(slots, sorted, winners);
    UnchangedPermuted(content, slots, sorted, originals);
    var new', back := Spliced(content, slots, winners), Shifted(sorted, winners, 0, 0, |content|);
    SpliceBack(content, sorted, winners, originals, 0, "");
    assert "" + new' == new';
    ShiftedFits(sorted, slots, winners, |content|, |new'|);
    ArrangeNothing(back, |new'|);
  }

  lemma ShiftedFits(sorted: seq<Slot>, slots: seq<Slot>, winners: map<Id, string>, length: nat, newLength: nat)
    requires InOrder(sorted, 0, length) && Known(sorted, winners) && Known(slots, winners) && SlotsFit(sorted, length)
    requires multiset(sorted) == multiset(slots) && forall i :: 0 <= i < |slots| ==> winners[slots[i].id] != ""
    requires InOrder(Shifted(sorted, winners, 0, 0, length), 0, newLength)
    ensures SlotsFit(Shifted(sorted, winners, 0, 0, length), newLength)
      && ByStart(Shifted(sorted, winners, 0, 0, length))
  {
    hide Shifted;
    var back := Shifted(sorted, winners, 0, 0, length);
    forall i: nat | i < |sorted|
      ensures |back| == |sorted| && back[i].id == sorted[i].id && back[i].start < back[i].end
    {
      ShiftedWidth(sorted, winners, 0, 0, length, i);
      assert sorted[i] in multiset(slots);
    }
    if sorted == [] {
      ShiftedNothing(winners, length);
    }
    InOrderFits(back, 0, newLength);
  }

  lemma ShiftedNothing(winners: map<Id, string>, length: nat)
    ensures Shifted([], winners, 0, 0, length) == []
  {
  }

  /** Sorts the slots by start and walks them, copying what lies between. */
  method SpliceContent(content: string, slots: seq<Slot>, winners: map<Id, string>) returns (r: string)
    requires SlotsFit(slots, |content|) && Known(slots, winners)
    ensures r == Spliced(content, slots, winners)
  {
    BeforeIsWeak();
    var sorted := SortSlice(slots, Before);
    SortedIsArranged(slots, sorted, |content|);
    ArrangeFits(slots, |content|);
    KnownPermuted(slots, sorted, winners);
    r := SpliceSorted(content, sorted, winners);
  }

  method SpliceSorted(content: string, sorted: seq<Slot>, winners: map<Id, string>) returns (r: string)
    requires InOrder(sorted, 0, |content|) && Known(sorted, winners)
    ensures r == Splice(content, sorted, winners, 0)
  {
    r := "";
    var cursor: nat := 0;
    for i := 0 to |sorted|
      invariant InOrder(sorted[i..], cursor, |content|) && cursor <= |content|
      invariant r + Splice(content, sorted[i..], winners, cursor) == Splice(content, sorted, winners, 0)
    {
      var slot := sorted[i];
      assert sorted[i..][0] == slot && sorted[i..][1..] == sorted[i + 1..];
      Unfold(content, sorted[i..], winners, cursor, 0);
      hide Splice;
      hide Shifted;
      Regroup(r, content[cursor..slot.start], winners[slot.id], Splice(content, sorted[i + 1..], winners, slot.end));
      r := r + content[cursor..slot.start] + winners[slot.id];
      cursor := slot.end;
    }
    assert sorted[|sorted|..] == [];
    r := r + content[cursor..];
  }

  lemma BeforeIsWeak()
    ensures StrictWeakOrder(Before)
  {
  }

  lemma SortedIsArranged(slots: seq<Slot>, sorted: seq<Slot>, length: nat)
    requires SlotsFit(slots, length) && Sorted(sorted, Before) && multiset(sorted) == multiset(slots)
    ensures sorted == Arrange(slots)
  {
    ArrangeElements(slots);
    ArrangeSorted(slots);
    FitPermuted(slots, sorted, length);
    FitStartsDiffer(sorted, length);
    assert ByStart(sorted) by {
      forall i, j | 0 <= i < j < |sorted|
        ensures sorted[i].start <= sorted[j].start
      {
        assert !Before(sorted[j], sorted[i]);
      }
    }
    OneOrder(sorted, Arrange(slots));
  }
}
