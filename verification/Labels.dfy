/** Listing current texts, all of them or by label (`RecentTexts` and `TextsByTags` in api/queel/repository.go). */
module Labels {
  import opened Wrappers
  import opened Bytes
  import opened Sorting
  import opened Splicing
  import opened Deliberation

  datatype Listed = Listed(id: Id, text: Text)

  predicate Newer(a: Listed, b: Listed)
  {
    a.text.createdAt > b.text.createdAt
  }

  /** The versions no round has superseded. */
  function CurrentTexts(l: Library): set<Id>
  {
    set t | t in l.texts && t !in l.supersededBy
  }

  predicate CarriesAll(text: Text, tags: seq<Tag>)
  {
    forall i :: 0 <= i < |tags| ==> tags[i] in text.tags
  }

  function Tagged(l: Library, tags: seq<Tag>): set<Id>
  {
    set t | t in CurrentTexts(l) && CarriesAll(l.texts[t], tags)
  }

  /** These texts, each once. */
  ghost predicate ListsTexts(r: seq<Listed>, l: Library, ids: set<Id>)
  {
    && (forall i :: 0 <= i < |r| ==> r[i].id in ids && r[i].id in l.texts && r[i].text == l.texts[r[i].id])
    && (forall i, j :: 0 <= i < j < |r| ==> r[i].id != r[j].id)
    && forall t :: t in ids && t in l.texts ==> Listed(t, l.texts[t]) in r
  }

  ghost predicate NewestFirst(r: seq<Listed>)
  {
    forall i, j :: 0 <= i < j < |r| ==> r[i].text.createdAt >= r[j].text.createdAt
  }

  /** Every text no round has superseded, once each, newest first. */
  ghost predicate ListsCurrent(r: seq<Listed>, l: Library)
  {
    ListsTexts(r, l, CurrentTexts(l)) && NewestFirst(r)
  }

  ghost predicate DistinctTimes(l: Library, ids: set<Id>)
  {
    forall a, b :: (a in ids && b in ids && a in l.texts && b in l.texts
                    && l.texts[a].createdAt == l.texts[b].createdAt) ==> a == b
  }

  // ---- A set of texts created at different times has one listing ----

  lemma {:induction false} OneListing(a: seq<Listed>, b: seq<Listed>, l: Library, ids: set<Id>)
    requires ListsTexts(a, l, ids) && ListsTexts(b, l, ids) && NewestFirst(a) && NewestFirst(b) && DistinctTimes(l, ids)
    ensures a == b
    decreases |a|
  {
    hide ListsTexts;
    hide NewestFirst;
    hide DistinctTimes;
    EmptyTogether(a, b, l, ids);
    EmptyTogether(b, a, l, ids);
    if a != [] && b != [] {
      SameFirst(a, b, l, ids);
      Rest(a, l, ids);
      Rest(b, l, ids);
      OneListing(a[1..], b[1..], l, ids - {a[0].id});
      assert a == [a[0]] + a[1..] && b == [b[0]] + b[1..];
    }
  }

  lemma EmptyTogether(a: seq<Listed>, b: seq<Listed>, l: Library, ids: set<Id>)
    requires ListsTexts(a, l, ids) && ListsTexts(b, l, ids)
    ensures a != [] ==> b != []
  {
    if a != [] {
      assert Listed(a[0].id, l.texts[a[0].id]) in b;
    }
  }

  lemma SameFirst(a: seq<Listed>, b: seq<Listed>, l: Library, ids: set<Id>)
    requires a != [] && b != []
    requires ListsTexts(a, l, ids) && ListsTexts(b, l, ids) && NewestFirst(a) && NewestFirst(b) && DistinctTimes(l, ids)
    ensures a[0] == b[0]
  {
    assert Listed(a[0].id, l.texts[a[0].id]) in b;
    assert Listed(b[0].id, l.texts[b[0].id]) in a;
    var i :| 0 <= i < |b| && b[i] == a[0];
    var j :| 0 <= j < |a| && a[j] == b[0];
    assert a[0].text.createdAt == b[0].text.createdAt;
  }

  lemma Rest(a: seq<Listed>, l: Library, ids: set<Id>)
    requires a != [] && ListsTexts(a, l, ids) && NewestFirst(a) && DistinctTimes(l, ids)
    ensures ListsTexts(a[1..], l, ids - {a[0].id}) && NewestFirst(a[1..]) && DistinctTimes(l, ids - {a[0].id})
  {
    var rest := a[1..];
    forall t | t in ids - {a[0].id} && t in l.texts
      ensures Listed(t, l.texts[t]) in rest
    {
      var i :| 0 <= i < |a| && a[i] == Listed(t, l.texts[t]);
      assert rest[i - 1] == a[i];
    }
  }

  // ---- Narrowing a listing ----

  /** The entries of a listing that carry all the labels, in the listing's order. */
  function Narrowed(r: seq<Listed>, tags: seq<Tag>): seq<Listed>
  {
    if r == [] then []
    else
      var front, last := Narrowed(r[..|r| - 1], tags), r[|r| - 1];
      if CarriesAll(last.text, tags) then front + [last] else front
  }

  lemma {:induction false} NarrowedEntries(r: seq<Listed>, tags: seq<Tag>)
    ensures forall x :: x in Narrowed(r, tags) <==> x in r && CarriesAll(x.text, tags)
  {
    if r != [] {
      NarrowedEntries(r[..|r| - 1], tags);
      assert r == r[..|r| - 1] + [r[|r| - 1]];
    }
  }

  lemma {:induction false} NarrowedInOrder(r: seq<Listed>, tags: seq<Tag>)
    requires NewestFirst(r) && forall i, j :: 0 <= i < j < |r| ==> r[i].id != r[j].id
    ensures NewestFirst(Narrowed(r, tags))
    ensures forall i, j :: 0 <= i < j < |Narrowed(r, tags)| ==> Narrowed(r, tags)[i].id != Narrowed(r, tags)[j].id
  {
    if r != [] {
      var front, last := r[..|r| - 1], r[|r| - 1];
      NarrowedInOrder(front, tags);
      LastOfAll(r, tags);
      hide CarriesAll;
    }
  }

  lemma LastOfAll(r: seq<Listed>, tags: seq<Tag>)
    requires r != [] && NewestFirst(r) && forall i, j :: 0 <= i < j < |r| ==> r[i].id != r[j].id
    ensures var kept, last := Narrowed(r[..|r| - 1], tags), r[|r| - 1];
            forall i :: 0 <= i < |kept| ==> kept[i].id != last.id && !Newer(last, kept[i])
  {
    var front, last := r[..|r| - 1], r[|r| - 1];
    var kept := Narrowed(front, tags);
    NarrowedEntries(front, tags);
    forall i | 0 <= i < |kept|
      ensures kept[i].id != last.id && !Newer(last, kept[i])
    {
      assert kept[i] in kept;
      assert kept[i] in front;
      var j :| 0 <= j < |front| && front[j] == kept[i];
      assert r[j] == kept[i];
    }
  }

  lemma NarrowedLists(r: seq<Listed>, l: Library, tags: seq<Tag>)
    requires ListsTexts(r, l, CurrentTexts(l)) && NewestFirst(r)
    ensures ListsTexts(Narrowed(r, tags), l, Tagged(l, tags)) && NewestFirst(Narrowed(r, tags))
  {
    var kept := Narrowed(r, tags);
    NarrowedEntries(r, tags);
    NarrowedInOrder(r, tags);
    forall i | 0 <= i < |kept|
      ensures kept[i].id in Tagged(l, tags) && kept[i].id in l.texts && kept[i].text == l.texts[kept[i].id]
    {
      assert kept[i] in kept;
      var j :| 0 <= j < |r| && r[j] == kept[i];
    }
  }

  /** In whatever order, and however often, the labels are given, they select the same texts. */
  lemma LabelOrderIsImmaterial(l: Library, tags: seq<Tag>, other: seq<Tag>)
    requires forall tag :: tag in tags <==> tag in other
    ensures Tagged(l, tags) == Tagged(l, other)
  {
    forall t | t in CurrentTexts(l)
      ensures CarriesAll(l.texts[t], tags) <==> CarriesAll(l.texts[t], other)
    {
      assert forall i :: 0 <= i < |tags| ==> tags[i] in other;
      assert forall i :: 0 <= i < |other| ==> other[i] in tags;
    }
  }

  // ---- The listings themselves ----

  /** Sorts what was collected, newest first. */
  method SortListed(found: seq<Listed>, ghost l: Library, ghost ids: set<Id>) returns (r: seq<Listed>)
    requires ListsTexts(found, l, ids)
    ensures ListsTexts(r, l, ids) && NewestFirst(r)
  {
    r := SortSlice(found, Newer);
    Permuted(found, r, l, ids);
  }

  lemma Permuted(a: seq<Listed>, b: seq<Listed>, l: Library, ids: set<Id>)
    requires multiset(a) == multiset(b) && ListsTexts(a, l, ids)
    ensures ListsTexts(b, l, ids)
  {
    forall x
      ensures x in a <==> x in b
    {
      assert x in a <==> x in multiset(a);
      assert x in b <==> x in multiset(b);
    }
    forall i | 0 <= i < |b|
      ensures b[i] in a
    {
    }
    forall i, j | 0 <= i < j < |b|
      ensures b[i].id != b[j].id
    {
      if b[i].id == b[j].id {
        assert b[i] in a && b[j] in a;
        TwiceInSeq(b, i, j);
        OnceInSeq(a, b[i]);
      }
    }
  }

  /** One more text met, in whatever order the scan delivers them. */
  lemma OneMoreListed(found: seq<Listed>, l: Library, ids: set<Id>, t: Id)
    requires ListsTexts(found, l, ids) && t in l.texts && t !in ids
    ensures ListsTexts(found + [Listed(t, l.texts[t])], l, ids + {t})
  {
    var more := found + [Listed(t, l.texts[t])];
    assert more[|found|] == Listed(t, l.texts[t]);
    forall x | x in ids + {t} && x in l.texts
      ensures Listed(x, l.texts[x]) in more
    {
    }
  }

  /** The part of a listing that a limit and an offset ask for; one that is not positive asks for nothing. */
  function Page(whole: seq<Listed>, limit: int, offset: int): seq<Listed>
  {
    var rest := if offset <= 0 then whole else if offset >= |whole| then [] else whole[offset..];
    if 0 < limit < |rest| then rest[..limit] else rest
  }

  /** Every current text, newest first: the page asked for of the listing as a whole. */
  method RecentTexts(l: Library, limit: int, offset: int) returns (r: seq<Listed>, ghost whole: seq<Listed>)
    ensures ListsCurrent(whole, l)
    ensures r == Page(whole, limit, offset)
  {
    var found := [];
    var todo := l.texts.Keys;
    ghost var met: set<Id> := {};
    while todo != {}
      invariant todo <= l.texts.Keys && met == (set t | t in l.texts && t !in todo && t !in l.supersededBy)
      invariant ListsTexts(found, l, met)
    {
      var t :| t in todo;
      if t !in l.supersededBy {
        OneMoreListed(found, l, met, t);
        found := found + [Listed(t, l.texts[t])];
        met := met + {t};
      }
      todo := todo - {t};
    }
    assert met == CurrentTexts(l);
    r := SortListed(found, l, met);
    whole := r;
    if offset > 0 {
      if offset >= |r| {
        return [], whole;
      }
      r := r[offset..];
    }
    if limit > 0 && |r| > limit {
      r := r[..limit];
    }
  }

  /** The first `n` pages one after the other. */
  function Pages(whole: seq<Listed>, limit: int, n: nat): seq<Listed>
  {
    if n == 0 then [] else Pages(whole, limit, n - 1) + Page(whole, limit, (n - 1) * limit)
  }

  /** Paging through a listing shows it from the start, without gap or overlap. */
  lemma {:induction false} PagesTile(whole: seq<Listed>, limit: int, n: nat)
    requires limit > 0
    ensures Pages(whole, limit, n) == if n * limit < |whole| then whole[..n * limit] else whole
  {
    if n > 0 {
      PagesTile(whole, limit, n - 1);
      NextPage(whole, limit, (n - 1) * limit);
      assert n * limit == (n - 1) * limit + limit;
    }
  }

  lemma NextPage(whole: seq<Listed>, limit: int, offset: int)
    requires limit > 0 && offset >= 0
    ensures (if offset < |whole| then whole[..offset] else whole) + Page(whole, limit, offset)
      == if offset + limit < |whole| then whole[..offset + limit] else whole
  {
  }

  // ---- Finding labels by prefix ----

  const SLASH: Byte := 47

  /** The key an index entry is stored under, less the prefix all of them share. */
  function IndexKey(e: (Tag, Id)): Key
  {
    e.0.name + [SLASH] + e.1.name
  }

  /** What scanning for a label delivers: the entries whose keys go on from the label and a slash. */
  function Under(tagIndex: set<(Tag, Id)>, tag: Tag): set<(Tag, Id)>
  {
    set e | e in tagIndex && tag.name + [SLASH] <= IndexKey(e)
  }

  /** Ids being free of slashes, a scan delivers the entries of the label and of those that extend it by a slash. */
  lemma UnderExactly(tagIndex: set<(Tag, Id)>, tag: Tag, e: (Tag, Id))
    requires e in tagIndex && SLASH !in e.1.name
    ensures e in Under(tagIndex, tag) <==> e.0 == tag || tag.name + [SLASH] <= e.0.name
  {
    var sought, name, key := tag.name + [SLASH], e.0.name, IndexKey(e);
    assert key[..|name|] == name && key[|name|] == SLASH;
    assert forall i :: |name| < i < |key| ==> key[i] == e.1.name[i - |name| - 1] && key[i] in e.1.name;
    if sought <= key {
      assert key[|tag.name|] == SLASH && key[..|tag.name|] == tag.name;
      assert |tag.name| < |name| ==> name[..|sought|] == key[..|sought|];
    }
    if sought <= name {
      assert key[..|sought|] == name[..|sought|];
    }
  }

  // ---- Resolving a label ----

  /** The label read back from an index key: what comes before the first slash. */
  function Cut(key: Key): Key
  {
    if key == [] || key[0] == SLASH then [] else [key[0]] + Cut(key[1..])
  }

  function LabelOf(e: (Tag, Id)): Tag
  {
    Tag(Cut(IndexKey(e)))
  }

  lemma {:induction false} CutAtSlash(name: Key, rest: Key)
    requires SLASH !in name
    ensures Cut(name + [SLASH] + rest) == name
  {
    var key := name + [SLASH] + rest;
    if name != [] {
      CutAtSlash(name[1..], rest);
      assert key[1..] == name[1..] + [SLASH] + rest;
    }
  }

  /** The first entry, in key order, whose label folds to the same. */
  ghost predicate FirstFolding(tagIndex: set<(Tag, Id)>, fold: Tag -> Tag, tag: Tag, e: (Tag, Id))
  {
    && e in tagIndex && fold(LabelOf(e)) == fold(tag)
    && forall d :: d in tagIndex && fold(LabelOf(d)) == fold(tag) ==> !Less(IndexKey(d), IndexKey(e))
  }

  /**
   * A label the scan finds anything for stands for itself; any other for the first label in use, in key order, that
   * folds to the same, or else for itself.
   */
  ghost predicate ResolvesTo(tagIndex: set<(Tag, Id)>, fold: Tag -> Tag, tag: Tag, stored: Tag)
  {
    if Under(tagIndex, tag) == {} && exists e :: e in tagIndex && fold(LabelOf(e)) == fold(tag)
    then exists e :: FirstFolding(tagIndex, fold, tag, e) && stored == LabelOf(e)
    else stored == tag
  }

  /** A label resolves to one label only. */
  lemma ResolvesOnce(tagIndex: set<(Tag, Id)>, fold: Tag -> Tag, tag: Tag, a: Tag, b: Tag)
    requires ResolvesTo(tagIndex, fold, tag, a) && ResolvesTo(tagIndex, fold, tag, b)
    ensures a == b
  {
    if Under(tagIndex, tag) == {} && exists e :: e in tagIndex && fold(LabelOf(e)) == fold(tag) {
      var d :| FirstFolding(tagIndex, fold, tag, d) && a == LabelOf(d);
      var e :| FirstFolding(tagIndex, fold, tag, e) && b == LabelOf(e);
      LessTrichotomy(IndexKey(d), IndexKey(e));
    }
  }

  /** Where no label has a slash in it, what a label resolves to is in use and folds to the same. */
  lemma ResolvedIsInUse(tagIndex: set<(Tag, Id)>, fold: Tag -> Tag, tag: Tag, stored: Tag)
    requires ResolvesTo(tagIndex, fold, tag, stored) && forall e :: e in tagIndex ==> SLASH !in e.0.name
    requires exists e :: e in tagIndex && fold(e.0) == fold(tag)
    ensures fold(stored) == fold(tag) && Under(tagIndex, stored) != {}
  {
    forall e | e in tagIndex
      ensures LabelOf(e) == e.0 && e in Under(tagIndex, e.0)
    {
      CutAtSlash(e.0.name, e.1.name);
      assert e.0.name + [SLASH] <= IndexKey(e);
    }
    if Under(tagIndex, tag) == {} {
      var some :| some in tagIndex && fold(some.0) == fold(tag);
      assert fold(LabelOf(some)) == fold(tag);
      var e :| FirstFolding(tagIndex, fold, tag, e) && stored == LabelOf(e);
      assert e in Under(tagIndex, stored);
    }
  }

  lemma {:induction false} LeastKey(entries: set<(Tag, Id)>) returns (e: (Tag, Id))
    requires entries != {}
    ensures e in entries && forall d :: d in entries ==> !Less(IndexKey(d), IndexKey(e))
  {
    hide IndexKey;
    var first :| first in entries;
    e := first;
    LessIrreflexive(IndexKey(first));
    assert forall d :: d in entries ==> d == first || d in entries - {first};
    if entries != {first} {
      assert entries - {first} != {};
      var other := LeastKey(entries - {first});
      if Less(IndexKey(other), IndexKey(first)) {
        e := other;
        LessTrichotomy(IndexKey(other), IndexKey(first));
      } else {
        forall d | d in entries && d != first
          ensures !Less(IndexKey(d), IndexKey(first))
        {
          NotLessThan(IndexKey(d), IndexKey(other), IndexKey(first));
        }
      }
    }
  }

  lemma NotLessThan(d: Key, e: Key, first: Key)
    requires !Less(d, e) && !Less(e, first)
    ensures !Less(d, first)
  {
    LessTrichotomy(d, e);
    LessTrichotomy(e, first);
    LessTrichotomy(d, first);
    if Less(d, first) {
      if Less(first, e) {
        LessTransitive(d, first, e);
      }
    }
  }

  /** Looks a label up as it is, then among all labels in the order a scan delivers them. */
  method ResolveTag(tagIndex: set<(Tag, Id)>, fold: Tag -> Tag, tag: Tag) returns (stored: Tag)
    ensures ResolvesTo(tagIndex, fold, tag, stored)
  {
    if Under(tagIndex, tag) != {} {
      return tag;
    }
    hide Less;
    hide LabelOf;
    hide IndexKey;
    var todo := tagIndex;
    while todo != {}
      invariant todo <= tagIndex
      invariant forall e :: e in tagIndex && e !in todo ==> fold(LabelOf(e)) != fold(tag)
    {
      ghost var least := LeastKey(todo);
      var e :| e in todo && forall d :: d in todo ==> !Less(IndexKey(d), IndexKey(e));
      if fold(LabelOf(e)) == fold(tag) {
        assert FirstFolding(tagIndex, fold, tag, e);
        return LabelOf(e);
      }
      todo := todo - {e};
    }
    return tag;
  }

  method CarriesEvery(text: Text, tags: seq<Tag>) returns (carries: bool)
    ensures carries == CarriesAll(text, tags)
  {
    for i := 0 to |tags|
      invariant forall k :: 0 <= k < i ==> tags[k] in text.tags
    {
      if tags[i] !in text.tags {
        return false;
      }
    }
    return true;
  }

  // ---- Listing by label ----

  /** The scanned entries of current texts that carry the labels after the first. */
  function Hits(l: Library, tagIndex: set<(Tag, Id)>, tags: seq<Tag>): set<(Tag, Id)>
    requires tags != []
  {
    set e | e in Under(tagIndex, tags[0]) && e.1 in CurrentTexts(l) && CarriesAll(l.texts[e.1], tags[1..])
  }

  function HitsOf(hits: set<(Tag, Id)>, t: Id): set<(Tag, Id)>
  {
    set e | e in hits && e.1 == t
  }

  /** Each text as often as it was hit. */
  ghost predicate ListsHits(r: seq<Listed>, l: Library, hits: set<(Tag, Id)>)
  {
    && (forall x :: x in r ==> x.id in l.texts && x.text == l.texts[x.id])
    && forall t :: t in l.texts ==> multiset(r)[Listed(t, l.texts[t])] == |HitsOf(hits, t)|
  }

  lemma OneMoreHit(found: seq<Listed>, l: Library, hits: set<(Tag, Id)>, e: (Tag, Id))
    requires ListsHits(found, l, hits) && e !in hits && e.1 in l.texts
    ensures ListsHits(found + [Listed(e.1, l.texts[e.1])], l, hits + {e})
  {
    forall t
      ensures HitsOf(hits + {e}, t) == if t == e.1 then HitsOf(hits, t) + {e} else HitsOf(hits, t)
    {
    }
  }

  /**
   * Scans the first label's index only and checks the rest on each text itself; entries of deleted texts are
   * skipped.
   */
  method ScanByTags(l: Library, tagIndex: set<(Tag, Id)>, tags: seq<Tag>) returns (r: seq<Listed>)
    requires tags != []
    ensures ListsHits(r, l, Hits(l, tagIndex, tags)) && NewestFirst(r)
  {
    var found, todo := [], Under(tagIndex, tags[0]);
    ghost var met: set<(Tag, Id)> := {};
    hide Under;
    while todo != {}
      invariant todo <= Under(tagIndex, tags[0])
      invariant met == set e | e in Hits(l, tagIndex, tags) && e !in todo
      invariant ListsHits(found, l, met)
    {
      var e :| e in todo;
      hide ListsHits;
      if e.1 in l.texts {
        var carries := CarriesEvery(l.texts[e.1], tags[1..]);
        if carries && e.1 !in l.supersededBy {
          OneMoreHit(found, l, met, e);
          found := found + [Listed(e.1, l.texts[e.1])];
          met := met + {e};
        }
      }
      todo := todo - {e};
    }
    assert met == Hits(l, tagIndex, tags);
    r := SortSlice(found, Newer);
    HitsPermuted(found, r, l, met);
  }

  lemma HitsPermuted(a: seq<Listed>, b: seq<Listed>, l: Library, hits: set<(Tag, Id)>)
    requires multiset(a) == multiset(b) && ListsHits(a, l, hits)
    ensures ListsHits(b, l, hits)
  {
    forall x | x in b
      ensures x in a
    {
      assert x in multiset(b);
    }
  }

  /** Whatever the scan met beyond the label itself is a text listed twice, or one that does not carry the label. */
  lemma StrayHit(r: seq<Listed>, l: Library, tagIndex: set<(Tag, Id)>, tags: seq<Tag>, e: (Tag, Id))
    requires TagsOk(l, tagIndex) && tags != [] && ListsHits(r, l, Hits(l, tagIndex, tags))
    requires e in Hits(l, tagIndex, tags) && e.0 != tags[0]
    ensures !ListsTexts(r, l, Tagged(l, tags))
  {
    var hits, x := HitsOf(Hits(l, tagIndex, tags), e.1), Listed(e.1, l.texts[e.1]);
    assert e in hits;
    assert x in multiset(r);
    if tags[0] in l.texts[e.1].tags {
      var own := (tags[0], e.1);
      assert own in tagIndex && tags[0].name + [SLASH] <= IndexKey(own);
      assert own in hits;
      TwoHits(hits, e, own);
      if forall i, j :: 0 <= i < j < |r| ==> r[i].id != r[j].id {
        OnceInSeq(r, x);
      }
    } else {
      var i :| 0 <= i < |r| && r[i] == x;
      assert !CarriesAll(l.texts[e.1], tags);
    }
  }

  lemma TwoHits(hits: set<(Tag, Id)>, a: (Tag, Id), b: (Tag, Id))
    requires a in hits && b in hits && a != b
    ensures |hits| >= 2
  {
    assert b in hits - {a};
    assert |hits - {a}| == |hits| - 1;
  }

  /** A text carrying all the labels is hit under the first of them. */
  lemma OwnHit(l: Library, tagIndex: set<(Tag, Id)>, tags: seq<Tag>, t: Id)
    requires TagsOk(l, tagIndex) && tags != [] && t in l.texts
    ensures (tags[0], t) in Hits(l, tagIndex, tags) <==> t in Tagged(l, tags)
  {
    var own := (tags[0], t);
    assert tags[0].name + [SLASH] <= IndexKey(own);
    assert forall i :: 0 < i < |tags| ==> tags[i] == tags[1..][i - 1];
    assert forall i :: 0 <= i < |tags[1..]| ==> tags[1..][i] == tags[i + 1];
  }

  lemma OwnHits(r: seq<Listed>, l: Library, tagIndex: set<(Tag, Id)>, tags: seq<Tag>)
    requires TagsOk(l, tagIndex) && tags != [] && ListsHits(r, l, Hits(l, tagIndex, tags))
    requires forall e :: e in Hits(l, tagIndex, tags) ==> e.0 == tags[0]
    ensures ListsTexts(r, l, Tagged(l, tags))
  {
    var hits := Hits(l, tagIndex, tags);
    forall t | t in l.texts
      ensures multiset(r)[Listed(t, l.texts[t])] == if t in Tagged(l, tags) then 1 else 0
    {
      OwnHit(l, tagIndex, tags, t);
      assert HitsOf(hits, t) == if t in Tagged(l, tags) then {(tags[0], t)} else {};
    }
    hide Tagged;
    hide ListsHits;
    hide Hits;
    assert forall x :: x in r ==> x.id in l.texts && x == Listed(x.id, l.texts[x.id]) by { ListedAre(r, l, hits); }
    forall i | 0 <= i < |r|
      ensures r[i].id in Tagged(l, tags)
    {
      assert r[i] in multiset(r);
    }
    forall i, j | 0 <= i < j < |r|
      ensures r[i].id != r[j].id
    {
      if r[i].id == r[j].id {
        assert r[i] in r && r[j] in r;
        TwiceInSeq(r, i, j);
      }
    }
    forall t | t in Tagged(l, tags) && t in l.texts
      ensures Listed(t, l.texts[t]) in r
    {
      assert Listed(t, l.texts[t]) in multiset(r);
    }
  }

  lemma ListedAre(r: seq<Listed>, l: Library, hits: set<(Tag, Id)>)
    requires ListsHits(r, l, hits)
    ensures forall x :: x in r ==> x.id in l.texts && x == Listed(x.id, l.texts[x.id])
  {
  }

  /**
   * The listing by labels holds the current texts carrying them all, each once, exactly if the scan for the first
   * met no other label: one that extends the first by a slash.
   */
  lemma ListsTaggedExactly(r: seq<Listed>, l: Library, tagIndex: set<(Tag, Id)>, tags: seq<Tag>)
    requires TagsOk(l, tagIndex) && tags != [] && ListsHits(r, l, Hits(l, tagIndex, tags))
    ensures ListsTexts(r, l, Tagged(l, tags)) <==> forall e :: e in Hits(l, tagIndex, tags) ==> e.0 == tags[0]
  {
    if e :| e in Hits(l, tagIndex, tags) && e.0 != tags[0] {
      StrayHit(r, l, tagIndex, tags, e);
    } else {
      OwnHits(r, l, tagIndex, tags);
    }
  }

  /** So it does where no label in use extends the first one asked for, ids being free of slashes. */
  lemma UnextendedIsExact(l: Library, tagIndex: set<(Tag, Id)>, tags: seq<Tag>)
    requires tags != [] && forall e :: e in tagIndex ==> SLASH !in e.1.name && !(tags[0].name + [SLASH] <= e.0.name)
    ensures forall e :: e in Hits(l, tagIndex, tags) ==> e.0 == tags[0]
  {
    forall e | e in Hits(l, tagIndex, tags)
      ensures e.0 == tags[0]
    {
      UnderExactly(tagIndex, tags[0], e);
    }
  }

  /** A text labelled `a/b` alone is listed under `a`. */
  lemma ExtendedLabelIsListed(text: Text, t: Id, a: Tag, b: Tag, r: seq<Listed>)
    requires b.name == a.name + [SLASH, 98] && text.tags == [b]
    requires var l := Library(map[t := text], map[], map[], map[], map[], {});
             ListsHits(r, l, Hits(l, {(b, t)}, [a]))
    ensures r == [Listed(t, text)] && a !in text.tags
  {
    var l := Library(map[t := text], map[], map[], map[], map[], {});
    var e := (b, t);
    assert (a.name + [SLASH]) + ([98] + [SLASH] + t.name) == IndexKey(e);
    assert Hits(l, {e}, [a]) == {e};
    assert HitsOf({e}, t) == {e};
    assert multiset(r)[Listed(t, text)] == 1;
    forall x | x in r
      ensures x == Listed(t, text)
    {
    }
    OneKind(r, Listed(t, text));
  }

  lemma {:induction false} OneKind(r: seq<Listed>, x: Listed)
    requires forall y :: y in r ==> y == x
    ensures multiset(r)[x] == |r|
  {
    if r != [] {
      var front := r[..|r| - 1];
      assert r == front + [r[|r| - 1]];
      assert forall y :: y in front ==> y in r;
      assert r[|r| - 1] in r;
      OneKind(front, x);
    }
  }

  /** For texts created at different times, listing by labels is the listing of all current texts narrowed to them. */
  lemma ByTagsIsNarrowing(recent: seq<Listed>, byTags: seq<Listed>, l: Library, tagIndex: set<(Tag, Id)>,
      tags: seq<Tag>)
    requires ListsCurrent(recent, l) && DistinctTimes(l, CurrentTexts(l))
    requires TagsOk(l, tagIndex) && tags != []
    requires ListsHits(byTags, l, Hits(l, tagIndex, tags)) && NewestFirst(byTags)
    ensures byTags == Narrowed(recent, tags) <==> forall e :: e in Hits(l, tagIndex, tags) ==> e.0 == tags[0]
  {
    NarrowedLists(recent, l, tags);
    ListsTaggedExactly(byTags, l, tagIndex, tags);
    hide ListsTexts;
    hide ListsHits;
    hide NewestFirst;
    hide Hits;
    if ListsTexts(byTags, l, Tagged(l, tags)) {
      FewerDistinctTimes(l, tags);
      OneListing(byTags, Narrowed(recent, tags), l, Tagged(l, tags));
    }
  }

  lemma FewerDistinctTimes(l: Library, tags: seq<Tag>)
    requires DistinctTimes(l, CurrentTexts(l))
    ensures DistinctTimes(l, Tagged(l, tags))
  {
  }

  /** Resolves each label to the form it is stored in, then lists by those; nothing for no label. */
  method TextsByTags(l: Library, tagIndex: set<(Tag, Id)>, tags: seq<Tag>, fold: Tag -> Tag)
    returns (r: seq<Listed>, resolved: seq<Tag>)
    ensures tags == [] ==> r == []
    ensures |resolved| == |tags| && forall i :: 0 <= i < |tags| ==> ResolvesTo(tagIndex, fold, tags[i], resolved[i])
    ensures tags != [] ==> ListsHits(r, l, Hits(l, tagIndex, resolved)) && NewestFirst(r)
    ensures (forall i :: 0 <= i < |tags| ==> Under(tagIndex, tags[i]) != {}) ==> resolved == tags
  {
    resolved := [];
    if |tags| == 0 {
      return [], [];
    }
    hide Under;
    for i := 0 to |tags|
      invariant |resolved| == i && forall k :: 0 <= k < i ==> ResolvesTo(tagIndex, fold, tags[k], resolved[k])
    {
      var stored := ResolveTag(tagIndex, fold, tags[i]);
      resolved := resolved + [stored];
    }
    r := ScanByTags(l, tagIndex, resolved);
  }
}
