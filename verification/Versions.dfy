/** The versions of a text, linked backwards and forwards (`TextChain` in api/queel/repository.go). */
module Versions {
  import opened Wrappers
  import opened Bytes
  import opened Splicing
  import opened Deliberation

  /** The version a text was forked from, if it is still there. */
  function Previous(l: Library, t: Id): Option<Id>
  {
    if t in l.texts && l.texts[t].previous.Some? && l.texts[t].previous.value in l.texts then l.texts[t].previous
    else None
  }

  /** The version a text was forked into, if it is still there. */
  function Next(l: Library, t: Id): Option<Id>
  {
    if t in l.supersededBy && l.supersededBy[t] in l.texts then Some(l.supersededBy[t]) else None
  }

  ghost predicate LinksOk(l: Library)
  {
    PointersOk(l) && ChainOk(l)
  }

  /** Backward and forward links are inverse to each other, and the round count rises by one along them. */
  lemma LinksAreInverse(l: Library, a: Id, b: Id)
    requires LinksOk(l) && a in l.texts && b in l.texts
    ensures Next(l, a) == Some(b) <==> Previous(l, b) == Some(a)
    ensures Next(l, a) == Some(b) ==> a in l.roundCount && b in l.roundCount && l.roundCount[b] == l.roundCount[a] + 1
  {
  }

  /** Surviving versions, each the next of the one before. */
  ghost predicate Linked(l: Library, chain: seq<Id>)
  {
    && (forall i :: 0 <= i < |chain| ==> chain[i] in l.texts)
    && forall i :: 0 <= i < |chain| - 1 ==> Next(l, chain[i]) == Some(chain[i + 1])
  }

  /** A whole run of surviving versions: nothing surviving before its first or after its last. */
  ghost predicate WholeChain(l: Library, chain: seq<Id>)
  {
    && chain != [] && Linked(l, chain)
    && Previous(l, chain[0]) == None && Next(l, chain[|chain| - 1]) == None
  }

  /** Round numbers rise by one along a chain, so no version occurs twice in it. */
  lemma {:induction false} CountsRise(l: Library, chain: seq<Id>, i: nat, j: nat)
    requires LinksOk(l) && Linked(l, chain) && i <= j < |chain|
    ensures chain[i] in l.roundCount && chain[j] in l.roundCount
    ensures l.roundCount[chain[j]] == l.roundCount[chain[i]] + (j - i)
    ensures i < j ==> chain[i] != chain[j]
    decreases j - i
  {
    assert chain[i] in l.texts;
    if i < j {
      LinksAreInverse(l, chain[j - 1], chain[j]);
      CountsRise(l, chain, i, j - 1);
    }
  }

  /** Going back from a shared version, two chains coincide. */
  lemma {:induction false} SameBefore(l: Library, c: seq<Id>, d: seq<Id>, i: nat, j: nat)
    requires LinksOk(l) && WholeChain(l, c) && WholeChain(l, d)
    requires i < |c| && j < |d| && c[i] == d[j]
    ensures i == j && c[..i + 1] == d[..j + 1]
    decreases i
  {
    if i > 0 {
      LinksAreInverse(l, c[i - 1], c[i]);
    }
    if j > 0 {
      LinksAreInverse(l, d[j - 1], d[j]);
    }
    if i > 0 && j > 0 {
      SameBefore(l, c, d, i - 1, j - 1);
      assert c[..i + 1] == c[..i] + [c[i]] && d[..j + 1] == d[..j] + [d[j]];
    }
  }

  /** Going on from a shared version, two chains coincide. */
  lemma {:induction false} SameAfter(l: Library, c: seq<Id>, d: seq<Id>, i: nat)
    requires WholeChain(l, c) && WholeChain(l, d)
    requires i < |c| && i < |d| && c[i] == d[i]
    ensures |c| == |d| && c[i..] == d[i..]
    decreases |c| - i
  {
    assert i < |c| - 1 ==> Next(l, c[i]) == Some(c[i + 1]);
    assert i < |d| - 1 ==> Next(l, d[i]) == Some(d[i + 1]);
    if i < |c| - 1 && i < |d| - 1 {
      SameAfter(l, c, d, i + 1);
      assert c[i..] == [c[i]] + c[i + 1..] && d[i..] == [d[i]] + d[i + 1..];
    }
  }

  /** A version belongs to one whole chain only. */
  lemma OneChain(l: Library, c: seq<Id>, d: seq<Id>, t: Id)
    requires LinksOk(l) && WholeChain(l, c) && WholeChain(l, d) && t in c && t in d
    ensures c == d
  {
    var i :| 0 <= i < |c| && c[i] == t;
    var j :| 0 <= j < |d| && d[j] == t;
    SameBefore(l, c, d, i, j);
    SameAfter(l, c, d, i);
    hide WholeChain;
    Glued(c, d, i);
  }

  lemma Glued(c: seq<Id>, d: seq<Id>, i: nat)
    requires i < |c| && i < |d| && c[..i + 1] == d[..i + 1] && c[i..] == d[i..]
    ensures c == d
  {
    assert c[i + 1..] == c[i..][1..] && d[i + 1..] == d[i..][1..];
    assert c == c[..i + 1] + c[i + 1..] && d == d[..i + 1] + d[i + 1..];
  }

  /** Walks back to the oldest surviving version, putting each in front. */
  method WalkBack(l: Library, textId: Id) returns (chain: seq<Id>)
    requires LinksOk(l) && textId in l.texts
    ensures chain != [] && Linked(l, chain) && chain[|chain| - 1] == textId && Previous(l, chain[0]) == None
  {
    chain := [textId];
    var current := textId;
    while l.texts[current].previous.Some? && l.texts[current].previous.value in l.texts
      invariant chain != [] && Linked(l, chain) && chain[0] == current && chain[|chain| - 1] == textId
      decreases l.roundCount[current]
    {
      var previous := l.texts[current].previous.value;
      LinksAreInverse(l, previous, current);
      LinkBefore(l, previous, chain);
      chain := [previous] + chain;
      current := previous;
    }
  }

  lemma LinkBefore(l: Library, first: Id, chain: seq<Id>)
    requires Linked(l, chain) && chain != [] && first in l.texts && Next(l, first) == Some(chain[0])
    ensures Linked(l, [first] + chain)
  {
    var longer := [first] + chain;
    assert forall i :: 0 < i < |longer| ==> longer[i] == chain[i - 1];
    forall i | 0 <= i < |longer| - 1
      ensures Next(l, longer[i]) == Some(longer[i + 1])
    {
      if i > 0 {
        assert Next(l, chain[i - 1]) == Some(chain[i]);
      }
    }
  }

  /** The versions whose round count is higher than a given one's: those still ahead. */
  function Ahead(l: Library, t: Id): set<Id>
    requires t in l.roundCount
  {
    set x | x in l.roundCount && l.roundCount[x] > l.roundCount[t]
  }

  /** Walks on to the newest surviving version. */
  method WalkForward(l: Library, start: seq<Id>) returns (chain: seq<Id>)
    requires LinksOk(l) && start != [] && Linked(l, start)
    ensures start <= chain && Linked(l, chain) && Next(l, chain[|chain| - 1]) == None
  {
    chain := start;
    var current := chain[|chain| - 1];
    while current in l.supersededBy && l.supersededBy[current] in l.texts
      invariant start <= chain && Linked(l, chain) && chain[|chain| - 1] == current && current in l.roundCount
      decreases |Ahead(l, current)|
    {
      var next := l.supersededBy[current];
      LinksAreInverse(l, current, next);
      LinkAfter(l, chain, next);
      FewerAhead(l, current, next);
      chain := chain + [next];
      current := next;
    }
  }

  lemma LinkAfter(l: Library, chain: seq<Id>, last: Id)
    requires Linked(l, chain) && chain != [] && last in l.texts && Next(l, chain[|chain| - 1]) == Some(last)
    ensures Linked(l, chain + [last])
  {
    var longer := chain + [last];
    forall i | 0 <= i < |longer| - 1
      ensures Next(l, longer[i]) == Some(longer[i + 1])
    {
      if i < |chain| - 1 {
        assert Next(l, chain[i]) == Some(chain[i + 1]);
      }
    }
  }

  lemma FewerAhead(l: Library, a: Id, b: Id)
    requires a in l.roundCount && b in l.roundCount && l.roundCount[b] == l.roundCount[a] + 1
    ensures |Ahead(l, b)| < |Ahead(l, a)|
  {
    var x, y := Ahead(l, a), Ahead(l, b);
    assert b in x && b !in y;
    SmallerSet(y, x, b);
  }

  lemma SmallerSet(y: set<Id>, x: set<Id>, b: Id)
    requires y <= x && b in x && b !in y
    ensures |y| < |x|
  {
    assert x == y + (x - y) && b in x - y;
  }

  /**
   * Every surviving version linked to the given one, oldest first; the same for any version among them,
   * also where some in between or around them were deleted.
   */
  method TextChain(l: Library, textId: Id) returns (r: Result<seq<Id>, RepositoryError>)
    requires LinksOk(l)
    ensures r.Ok? <==> textId in l.texts
    ensures r.Err? ==> r.error == NotFound
    ensures r.Ok? ==> WholeChain(l, r.value) && textId in r.value
    ensures r.Ok? ==> forall chain :: WholeChain(l, chain) && textId in chain ==> chain == r.value
    ensures r.Ok? ==> forall i: nat, j: nat ::
      (i <= j < |r.value| && r.value[i] in l.roundCount && r.value[j] in l.roundCount) ==>
        l.roundCount[r.value[j]] == l.roundCount[r.value[i]] + (j - i)
  {
    if textId !in l.texts {
      return Err(NotFound);
    }
    var back := WalkBack(l, textId);
    var chain := WalkForward(l, back);
    assert chain[0] == back[0];
    assert chain[|back| - 1] == textId;
    forall other | WholeChain(l, other) && textId in other
      ensures other == chain
    {
      OneChain(l, other, chain, textId);
    }
    forall i: nat, j: nat | i <= j < |chain| && chain[i] in l.roundCount && chain[j] in l.roundCount
      ensures l.roundCount[chain[j]] == l.roundCount[chain[i]] + (j - i)
    {
      CountsRise(l, chain, i, j);
    }
    return Ok(chain);
  }
}
