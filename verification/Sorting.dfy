/** `sort.Slice` and `sort.Search`, known to their callers only by what Go's library promises. */
module Sorting {
  /** What `sort.Slice` asks of its comparison: a strict weak order. */
  ghost predicate StrictWeakOrder<T(!new)>(less: (T, T) -> bool)
  {
    && (forall a, b :: less(a, b) ==> !less(b, a))
    && (forall a, b, c :: !less(b, a) && !less(c, b) ==> !less(c, a))
  }

  ghost predicate Sorted<T>(s: seq<T>, less: (T, T) -> bool)
  {
    forall i, j :: 0 <= i < j < |s| ==> !less(s[j], s[i])
  }

  /** Sorts without promising stability: a caller knows only "sorted" and "a permutation". */
  method SortSlice<T(!new)>(s: seq<T>, less: (T, T) -> bool) returns (r: seq<T>)
    requires StrictWeakOrder(less)
    ensures Sorted(r, less) && multiset(r) == multiset(s)
  {
    r := [];
    for n := 0 to |s|
      invariant Sorted(r, less) && multiset(r) == multiset(s[..n])
    {
      r := InsertInto(r, s[n], less);
      assert s[..n + 1] == s[..n] + [s[n]];
    }
    assert s[..|s|] == s;
  }

  method InsertInto<T(!new)>(s: seq<T>, x: T, less: (T, T) -> bool) returns (r: seq<T>)
    requires StrictWeakOrder(less) && Sorted(s, less)
    ensures Sorted(r, less) && multiset(r) == multiset(s) + multiset{x}
  {
    var p := 0;
    while p < |s| && less(s[p], x)
      invariant 0 <= p <= |s|
      invariant forall i :: 0 <= i < p ==> less(s[i], x)
    {
      p := p + 1;
    }
    r := s[..p] + [x] + s[p..];
    InsertedSorted(s, x, less, p);
    InsertedElements(s, x, p);
  }

  lemma InsertedSorted<T(!new)>(s: seq<T>, x: T, less: (T, T) -> bool, p: nat)
    requires StrictWeakOrder(less) && Sorted(s, less) && p <= |s|
    requires (forall i :: 0 <= i < p ==> less(s[i], x)) && (p < |s| ==> !less(s[p], x))
    ensures Sorted(s[..p] + [x] + s[p..], less)
  {
    var r := s[..p] + [x] + s[p..];
    forall i | p <= i < |s|
      ensures !less(s[i], x)
    {
      assert !less(s[i], s[p]);
    }
    forall i, j | 0 <= i < j < |r|
      ensures !less(r[j], r[i])
    {
      assert r[i] == if i < p then s[i] else if i == p then x else s[i - 1];
      assert r[j] == if j < p then s[j] else if j == p then x else s[j - 1];
    }
  }

  lemma InsertedElements<T>(s: seq<T>, x: T, p: nat)
    requires p <= |s|
    ensures multiset(s[..p] + [x] + s[p..]) == multiset(s) + multiset{x}
  {
    assert s == s[..p] + s[p..];
  }

  /** Two positions holding the same element mean multiplicity two. */
  lemma TwiceInSeq<T>(s: seq<T>, i: nat, j: nat)
    requires i < j < |s| && s[i] == s[j]
    ensures multiset(s)[s[i]] >= 2
  {
    assert s == s[..j] + [s[j]] + s[j + 1..];
    assert s[..j][i] == s[i];
    assert s[i] in multiset(s[..j]);
  }

  /** An element found at one position only has multiplicity one. */
  lemma OnlyAt<T>(s: seq<T>, a: nat)
    requires a < |s| && forall i :: 0 <= i < |s| && i != a ==> s[i] != s[a]
    ensures multiset(s)[s[a]] == 1
  {
    var front, back := s[..a], s[a + 1..];
    assert s == front + [s[a]] + back;
    assert forall i :: 0 <= i < |back| ==> back[i] == s[a + 1 + i];
    assert s[a] !in front && s[a] !in back;
  }

  /** Elements that all differ occur once at most. */
  lemma {:induction false} OnceInSeq<T>(s: seq<T>, x: T)
    requires forall i, j :: 0 <= i < j < |s| ==> s[i] != s[j]
    ensures multiset(s)[x] <= 1
  {
    if s != [] {
      var front, last := s[..|s| - 1], s[|s| - 1];
      assert s == front + [last];
      OnceInSeq(front, x);
      assert last !in front;
      assert last !in multiset(front);
    }
  }
}
