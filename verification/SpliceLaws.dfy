/**
 * What splicing comes to, without saying how it is done: every rune outside the slots, and every winner, stands where
 * the growth of the slots before it has moved it (`spliceContent` in api/queel/repository.go).
 */
module SpliceLaws {
  import opened Bytes
  import opened Splicing

  /** By how much the slots that end at or before a position grow, `wins[i]` taking the place of `slots[i]`. */
  function Growing(slots: seq<Slot>, wins: seq<string>, at: nat): int
    requires |wins| == |slots|
  {
    if slots == [] then 0
    else
      var gain := if slots[0].end <= at then |wins[0]| - (slots[0].end - slots[0].start) else 0;
      gain + Growing(slots[1..], wins[1..], at)
  }

  /** Where a position of the old text comes to be. */
  function NowAt(slots: seq<Slot>, wins: seq<string>, at: nat): int
    requires |wins| == |slots|
  {
    at + Growing(slots, wins, at)
  }

  /** The text with each slot's range replaced, and nothing else changed. */
  ghost predicate Replaces(content: string, slots: seq<Slot>, wins: seq<string>, new': string)
    requires |wins| == |slots|
  {
    && |new'| == NowAt(slots, wins, |content|)
    && (forall i: nat {:trigger content[i]} :: i < |content| && Outside(slots, i) ==>
          0 <= NowAt(slots, wins, i) < |new'| && new'[NowAt(slots, wins, i)] == content[i])
    && forall k {:trigger wins[k]} :: 0 <= k < |slots| ==> StandsAt(new', wins[k], NowAt(slots, wins, slots[k].start))
  }

  predicate StandsAt(text: string, part: string, at: int)
  {
    0 <= at <= at + |part| <= |text| && text[at..at + |part|] == part
  }

  predicate Within(t: int, at: int, part: string)
  {
    at <= t < at + |part|
  }

  // ---- Growth does not depend on the order of the slots ----

  function Gain(slot: Slot, winners: map<Id, string>, at: nat): int
  {
    if slot.end <= at && slot.id in winners then |winners[slot.id]| - (slot.end - slot.start) else 0
  }

  function GrowthBefore(slots: seq<Slot>, winners: map<Id, string>, at: nat): int
  {
    if slots == [] then 0 else Gain(slots[0], winners, at) + GrowthBefore(slots[1..], winners, at)
  }

  lemma {:induction false} GrowthIs(slots: seq<Slot>, wins: seq<string>, winners: map<Id, string>, at: nat)
    requires |wins| == |slots|
    requires forall i :: 0 <= i < |slots| ==> slots[i].id in winners && wins[i] == winners[slots[i].id]
    ensures Growing(slots, wins, at) == GrowthBefore(slots, winners, at)
  {
    if slots != [] {
      GrowthIs(slots[1..], wins[1..], winners, at);
    }
  }

  lemma {:induction false} GrowthOfMore(slots: seq<Slot>, slot: Slot, winners: map<Id, string>, at: nat)
    ensures GrowthBefore(slots + [slot], winners, at) == GrowthBefore(slots, winners, at) + Gain(slot, winners, at)
  {
    hide Gain;
    if slots == [] {
      assert [] + [slot] == [slot] && [slot][1..] == [];
    } else {
      GrowthOfMore(slots[1..], slot, winners, at);
      assert (slots + [slot])[1..] == slots[1..] + [slot];
    }
  }

  lemma {:induction false} GrowthPlaced(sorted: seq<Slot>, slot: Slot, winners: map<Id, string>, at: nat)
    ensures GrowthBefore(Place(sorted, slot), winners, at)
      == GrowthBefore(sorted, winners, at) + Gain(slot, winners, at)
  {
    hide Gain;
    if sorted == [] {
      assert [slot][1..] == [];
    } else if Before(slot, sorted[0]) {
      assert ([slot] + sorted)[1..] == sorted;
    } else {
      GrowthPlaced(sorted[1..], slot, winners, at);
      assert ([sorted[0]] + Place(sorted[1..], slot))[1..] == Place(sorted[1..], slot);
    }
  }

  lemma {:induction false} GrowthArranged(slots: seq<Slot>, winners: map<Id, string>, at: nat)
    ensures GrowthBefore(Arrange(slots), winners, at) == GrowthBefore(slots, winners, at)
  {
    hide Gain;
    if slots != [] {
      var front, last := slots[..|slots| - 1], slots[|slots| - 1];
      GrowthArranged(front, winners, at);
      GrowthPlaced(Arrange(front), last, winners, at);
      GrowthOfMore(front, last, winners, at);
      assert slots == front + [last];
    }
  }

  // ---- Slots in text order ----

  lemma {:induction false} NothingBefore(slots: seq<Slot>, winners: map<Id, string>, at: nat)
    requires forall i :: 0 <= i < |slots| ==> at < slots[i].end
    ensures GrowthBefore(slots, winners, at) == 0
  {
    if slots != [] {
      NothingBefore(slots[1..], winners, at);
    }
  }

  lemma {:induction false} AllBefore(slots: seq<Slot>, winners: map<Id, string>, at: nat)
    requires Known(slots, winners) && forall i :: 0 <= i < |slots| ==> slots[i].end <= at
    ensures GrowthBefore(slots, winners, at) == Growth(slots, winners)
  {
    if slots != [] {
      AllBefore(slots[1..], winners, at);
    }
  }

  lemma {:induction false} MovedIsGrowth(slots: seq<Slot>, winners: map<Id, string>, cursor: nat, length: nat, i: nat)
    requires InOrder(slots, cursor, length) && Known(slots, winners) && Outside(slots, i)
    ensures Moved(slots, winners, i) == i + GrowthBefore(slots, winners, i)
    decreases |slots|
  {
    InOrderBounds(slots, cursor, length);
    if slots != [] {
      if i < slots[0].start {
        InOrderBounds(slots[1..], slots[0].end, length);
        assert forall k :: 0 < k < |slots| ==> slots[k] == slots[1..][k - 1];
        NothingBefore(slots, winners, i);
      } else {
        MovedIsGrowth(slots[1..], winners, slots[0].end, length, i);
      }
    }
  }

  lemma StandsBetween(a: string, b: string, c: string)
    ensures StandsAt(a + b + c, b, |a|)
  {
    Middle(a, b, c);
  }

  lemma StandsLater(a: string, b: string, c: string, part: string, at: int)
    requires StandsAt(c, part, at)
    ensures StandsAt(a + b + c, part, |a| + |b| + at)
  {
    assert (a + b + c)[|a| + |b| + at..|a| + |b| + at + |part|] == c[at..at + |part|];
  }

  /** Each winner stands where the growth of the slots before its own has moved it. */
  lemma {:induction false} WinnerStands(content: string, slots: seq<Slot>, winners: map<Id, string>, cursor: nat,
      k: nat)
    requires InOrder(slots, cursor, |content|) && Known(slots, winners) && k < |slots|
    requires forall i :: 0 <= i < |slots| ==> slots[i].start < slots[i].end
    ensures StandsAt(Splice(content, slots, winners, cursor), winners[slots[k].id],
      slots[k].start - cursor + GrowthBefore(slots, winners, slots[k].start))
    decreases |slots|
  {
    Unfold(content, slots, winners, cursor, 0);
    var first, rest := slots[0], slots[1..];
    var gap, won := content[cursor..first.start], winners[first.id];
    var spliced := Splice(content, rest, winners, first.end);
    InOrderBounds(rest, first.end, |content|);
    assert forall i :: 0 < i < |slots| ==> slots[i] == rest[i - 1];
    hide Splice;
    hide Shifted;
    hide InOrder;
    hide StandsAt;
    if k == 0 {
      NothingBefore(slots, winners, first.start);
      StandsBetween(gap, won, spliced);
    } else {
      WinnerStands(content, rest, winners, first.end, k - 1);
      var at := slots[k].start - first.end + GrowthBefore(rest, winners, slots[k].start);
      StandsLater(gap, won, spliced, winners[slots[k].id], at);
    }
  }

  // ---- Slots in any order ----

  lemma SplicedLength(content: string, slots: seq<Slot>, winners: map<Id, string>)
    requires SlotsFit(slots, |content|) && Known(slots, winners)
    ensures |Spliced(content, slots, winners)| == |content| + GrowthBefore(slots, winners, |content|)
  {
    hide Splice;
    hide Arrange;
    ArrangeFits(slots, |content|);
    KnownPermuted(slots, Arrange(slots), winners);
    SplicedLaws(content, slots, winners);
    FitPermuted(slots, Arrange(slots), |content|);
    AllBefore(Arrange(slots), winners, |content|);
    GrowthArranged(slots, winners, |content|);
  }

  lemma SplicedCopies(content: string, slots: seq<Slot>, winners: map<Id, string>, i: nat)
    requires SlotsFit(slots, |content|) && Known(slots, winners) && i < |content| && Outside(slots, i)
    ensures var to := i + GrowthBefore(slots, winners, i);
            0 <= to < |Spliced(content, slots, winners)| && Spliced(content, slots, winners)[to] == content[i]
  {
    hide Splice;
    hide Arrange;
    ArrangeFits(slots, |content|);
    KnownPermuted(slots, Arrange(slots), winners);
    OutsidePermuted(slots, Arrange(slots), i);
    SplicedOutside(content, slots, winners, i, i);
    MovedIsGrowth(Arrange(slots), winners, 0, |content|, i);
    GrowthArranged(slots, winners, i);
  }

  lemma SplicedStands(content: string, slots: seq<Slot>, winners: map<Id, string>, k: nat)
    requires SlotsFit(slots, |content|) && Known(slots, winners) && k < |slots|
    ensures StandsAt(Spliced(content, slots, winners), winners[slots[k].id],
      slots[k].start + GrowthBefore(slots, winners, slots[k].start))
  {
    hide Splice;
    hide Arrange;
    hide StandsAt;
    var sorted := Arrange(slots);
    ArrangeFits(slots, |content|);
    KnownPermuted(slots, sorted, winners);
    FitPermuted(slots, sorted, |content|);
    assert slots[k] in multiset(sorted);
    var j :| 0 <= j < |sorted| && sorted[j] == slots[k];
    WinnerStands(content, sorted, winners, 0, j);
    GrowthArranged(slots, winners, slots[k].start);
  }

  /** Splicing replaces each slot's range by its winner, and nothing else. */
  lemma SplicedReplaces(content: string, slots: seq<Slot>, winners: map<Id, string>, wins: seq<string>)
    requires SlotsFit(slots, |content|) && Known(slots, winners) && |wins| == |slots|
    requires forall i :: 0 <= i < |slots| ==> wins[i] == winners[slots[i].id]
    ensures Replaces(content, slots, wins, Spliced(content, slots, winners))
  {
    var new' := Spliced(content, slots, winners);
    hide Spliced;
    hide Growing;
    hide StandsAt;
    SplicedLength(content, slots, winners);
    GrowthIs(slots, wins, winners, |content|);
    forall i: nat | i < |content| && Outside(slots, i)
      ensures 0 <= NowAt(slots, wins, i) < |new'| && new'[NowAt(slots, wins, i)] == content[i]
    {
      SplicedCopies(content, slots, winners, i);
      GrowthIs(slots, wins, winners, i);
    }
    forall k | 0 <= k < |slots|
      ensures StandsAt(new', wins[k], NowAt(slots, wins, slots[k].start))
    {
      SplicedStands(content, slots, winners, k);
      GrowthIs(slots, wins, winners, slots[k].start);
    }
  }

  // ---- Nothing else is in the new text ----

  /** Every rune of the new text is one from outside the slots or one of a winner. */
  lemma {:induction false} Covered(content: string, slots: seq<Slot>, winners: map<Id, string>, cursor: nat, t: nat)
    returns (copied: bool, i: nat, k: nat)
    requires InOrder(slots, cursor, |content|) && Known(slots, winners)
    requires forall i :: 0 <= i < |slots| ==> slots[i].start < slots[i].end
    requires t < |Splice(content, slots, winners, cursor)|
    ensures copied ==>
      cursor <= i < |content| && Outside(slots, i) && t == i - cursor + GrowthBefore(slots, winners, i)
    ensures !copied ==> k < |slots| && Within(t, slots[k].start - cursor + GrowthBefore(slots, winners, slots[k].start),
      winners[slots[k].id])
    decreases |slots|
  {
    copied, i, k := true, cursor + t, 0;
    InOrderBounds(slots, cursor, |content|);
    if slots != [] {
      Unfold(content, slots, winners, cursor, 0);
      var first, rest := slots[0], slots[1..];
      var before, won := first.start - cursor, |winners[first.id]|;
      InOrderBounds(rest, first.end, |content|);
      assert forall j :: 0 < j < |slots| ==> slots[j] == rest[j - 1];
      hide Splice;
      hide Shifted;
      hide InOrder;
      if t < before {
        NothingBefore(slots, winners, i);
      } else if t < before + won {
        copied := false;
        NothingBefore(slots, winners, first.start);
      } else {
        copied, i, k := Covered(content, rest, winners, first.end, t - before - won);
        k := k + 1;
      }
    }
  }

  lemma CoveredAnyOrder(content: string, slots: seq<Slot>, winners: map<Id, string>, t: nat)
    returns (copied: bool, i: nat, k: nat)
    requires SlotsFit(slots, |content|) && Known(slots, winners) && t < |Spliced(content, slots, winners)|
    ensures copied ==> i < |content| && Outside(slots, i) && t == i + GrowthBefore(slots, winners, i)
    ensures !copied ==> k < |slots| && Within(t, slots[k].start + GrowthBefore(slots, winners, slots[k].start),
      winners[slots[k].id])
  {
    hide Splice;
    hide Arrange;
    var sorted := Arrange(slots);
    ArrangeFits(slots, |content|);
    KnownPermuted(slots, sorted, winners);
    FitPermuted(slots, sorted, |content|);
    copied, i, k := Covered(content, sorted, winners, 0, t);
    if copied {
      OutsidePermuted(sorted, slots, i);
      GrowthArranged(slots, winners, i);
    } else {
      assert sorted[k] in multiset(slots);
      var slot := sorted[k];
      k :| 0 <= k < |slots| && slots[k] == slot;
      GrowthArranged(slots, winners, slot.start);
    }
  }

  lemma SameRune(content: string, slots: seq<Slot>, winners: map<Id, string>, wins: seq<string>, x: string, t: nat)
    requires SlotsFit(slots, |content|) && Known(slots, winners) && |wins| == |slots|
    requires forall i :: 0 <= i < |slots| ==> wins[i] == winners[slots[i].id]
    requires Replaces(content, slots, wins, x) && t < |Spliced(content, slots, winners)| == |x|
    ensures x[t] == Spliced(content, slots, winners)[t]
  {
    var copied, i, k := CoveredAnyOrder(content, slots, winners, t);
    SplicedReplaces(content, slots, winners, wins);
    hide Spliced;
    hide Growing;
    hide GrowthBefore;
    if copied {
      GrowthIs(slots, wins, winners, i);
      RuneCopied(content, slots, wins, x, i);
      RuneCopied(content, slots, wins, Spliced(content, slots, winners), i);
    } else {
      var at := NowAt(slots, wins, slots[k].start);
      GrowthIs(slots, wins, winners, slots[k].start);
      assert StandsAt(x, wins[k], at);
      assert StandsAt(Spliced(content, slots, winners), wins[k], at);
      SameIn(x, Spliced(content, slots, winners), wins[k], at, t);
    }
  }

  lemma RuneCopied(content: string, slots: seq<Slot>, wins: seq<string>, x: string, i: nat)
    requires |wins| == |slots| && Replaces(content, slots, wins, x) && i < |content| && Outside(slots, i)
    ensures 0 <= NowAt(slots, wins, i) < |x| && x[NowAt(slots, wins, i)] == content[i]
  {
    var rune := content[i];
  }

  lemma SameIn(x: string, y: string, part: string, at: int, t: nat)
    requires StandsAt(x, part, at) && StandsAt(y, part, at) && at <= t < at + |part|
    ensures x[t] == y[t]
  {
    assert x[at..at + |part|][t - at] == x[t] && y[at..at + |part|][t - at] == y[t];
  }

  /** The spliced text is the only one in which the ranges are replaced so. */
  lemma ReplacesExactly(content: string, slots: seq<Slot>, winners: map<Id, string>, wins: seq<string>, x: string)
    requires SlotsFit(slots, |content|) && Known(slots, winners) && |wins| == |slots|
    requires forall i :: 0 <= i < |slots| ==> wins[i] == winners[slots[i].id]
    ensures Replaces(content, slots, wins, x) <==> x == Spliced(content, slots, winners)
  {
    SplicedReplaces(content, slots, winners, wins);
    if Replaces(content, slots, wins, x) {
      forall t: nat | t < |x|
        ensures x[t] == Spliced(content, slots, winners)[t]
      {
        SameRune(content, slots, winners, wins, x, t);
      }
    }
  }
}
