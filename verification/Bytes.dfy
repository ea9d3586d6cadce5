/** Byte strings, the order `bytes.Compare` puts on them, and sorted listings of maps keyed by them. */
module Bytes {
  type Byte = x: int | 0 <= x < 256

  /** A key: Go strings and byte slices are both sequences of bytes. */
  type Key = seq<Byte>

  /** `bytes.Compare(a, b) < 0`: lexicographic, a proper prefix comes first. */
  predicate Less(a: Key, b: Key)
  {
    if |b| == 0 then false
    else if |a| == 0 then true
    else if a[0] != b[0] then a[0] < b[0]
    else Less(a[1..], b[1..])
  }

  /** `a` ends where `b` goes on, or has the smaller byte where they first differ. */
  ghost predicate Precedes(a: Key, b: Key)
  {
    exists i :: 0 <= i <= |a| && i < |b| && a[..i] == b[..i] && (i == |a| || a[i] < b[i])
  }

  /** The order is the lexicographic one on bytes. */
  lemma {:induction false} LessExactly(a: Key, b: Key)
    ensures Less(a, b) <==> Precedes(a, b)
  {
    if a == [] && b != [] {
      assert a[..0] == b[..0];
    } else if a != [] && b != [] {
      LessExactly(a[1..], b[1..]);
      if a[0] == b[0] {
        if Precedes(a[1..], b[1..]) {
          var i :| 0 <= i <= |a[1..]| && i < |b[1..]| && a[1..][..i] == b[1..][..i]
            && (i == |a[1..]| || a[1..][i] < b[1..][i]);
          assert a[..i + 1] == [a[0]] + a[1..][..i] && b[..i + 1] == [b[0]] + b[1..][..i];
        }
        if Precedes(a, b) {
          var i :| 0 <= i <= |a| && i < |b| && a[..i] == b[..i] && (i == |a| || a[i] < b[i]);
          assert a[1..][..i - 1] == a[..i][1..] && b[1..][..i - 1] == b[..i][1..];
        }
      } else {
        assert a[..0] == b[..0];
        assert forall i :: 0 < i <= |a| && i < |b| ==> a[..i][0] == a[0] && b[..i][0] == b[0];
      }
    }
  }

  lemma {:induction false} LessIrreflexive(a: Key)
    ensures !Less(a, a)
  {
    if a != [] {
      LessIrreflexive(a[1..]);
    }
  }

  lemma {:induction false} LessTransitive(a: Key, b: Key, c: Key)
    requires Less(a, b) && Less(b, c)
    ensures Less(a, c)
  {
    if a != [] && a[0] == b[0] == c[0] {
      LessTransitive(a[1..], b[1..], c[1..]);
    }
  }

  lemma {:induction false} LessTotal(a: Key, b: Key)
    ensures Less(a, b) || a == b || Less(b, a)
  {
    if a != [] && b != [] && a[0] == b[0] {
      LessTotal(a[1..], b[1..]);
      assert a == [a[0]] + a[1..] && b == [b[0]] + b[1..];
    }
  }

  /** Exactly one of the three: the order is a strict total order. */
  lemma LessTrichotomy(a: Key, b: Key)
    ensures Less(a, b) ==> a != b && !Less(b, a)
    ensures !Less(a, b) ==> a == b || Less(b, a)
  {
    LessTotal(a, b);
    if Less(a, b) {
      LessIrreflexive(a);
      if Less(b, a) {
        LessTransitive(a, b, a);
      }
    }
  }

  /** A key together with what is stored under it. */
  datatype KV<+V> = KV(key: Key, value: V)

  ghost predicate Ascending<V>(s: seq<KV<V>>)
  {
    forall i, j :: 0 <= i < j < |s| ==> Less(s[i].key, s[j].key)
  }

  /** The bindings of a list, a later one replacing an earlier one of the same key. */
  function ToMap<V>(s: seq<KV<V>>): map<Key, V>
  {
    if s == [] then map[] else ToMap(s[..|s| - 1])[s[|s| - 1].key := s[|s| - 1].value]
  }

  /** `s` lists the map `m` in strictly ascending key order: every binding once, nothing else. */
  ghost predicate Lists<V>(s: seq<KV<V>>, m: map<Key, V>)
  {
    Ascending(s) && ToMap(s) == m
  }

  /** Every key of the map comes from some position of the list. */
  lemma {:induction false} KeyAt<V>(s: seq<KV<V>>, k: Key) returns (i: nat)
    requires k in ToMap(s)
    ensures i < |s| && s[i].key == k && s[i].value == ToMap(s)[k]
  {
    i := |s| - 1;
    if s[i].key != k {
      i := KeyAt(s[..|s| - 1], k);
    }
  }

  /** Every position of an ascending list is a binding of its map. */
  lemma {:induction false} BindingAt<V>(s: seq<KV<V>>, i: nat)
    requires Ascending(s) && i < |s|
    ensures s[i].key in ToMap(s) && ToMap(s)[s[i].key] == s[i].value
  {
    if i < |s| - 1 {
      var t := s[..|s| - 1];
      assert t[i] == s[i];
      BindingAt(t, i);
      LessTrichotomy(s[i].key, s[|s| - 1].key);
    }
  }

  /** A map has at most one listing: what is sorted by key does not depend on how it was sorted. */
  lemma {:induction false} ListingUnique<V>(s: seq<KV<V>>, t: seq<KV<V>>, m: map<Key, V>)
    requires Lists(s, m) && Lists(t, m)
    ensures s == t
    decreases |s|
  {
    assert s != [] ==> s[|s| - 1].key in m;
    assert t != [] ==> t[|t| - 1].key in m;
    if m == map[] {
      assert s == [] && t == [];
    } else {
      LastIsGreatest(s, m);
      LastIsGreatest(t, m);
      var a, b := s[|s| - 1], t[|t| - 1];
      LessTrichotomy(a.key, b.key);
      DropLast(s);
      DropLast(t);
      ListingUnique(s[..|s| - 1], t[..|t| - 1], m - {a.key});
      assert s == s[..|s| - 1] + [a] && t == t[..|t| - 1] + [b];
    }
  }

  lemma LastIsGreatest<V>(s: seq<KV<V>>, m: map<Key, V>)
    requires Lists(s, m) && m != map[]
    ensures s != [] && s[|s| - 1].key in m && s[|s| - 1].value == m[s[|s| - 1].key]
    ensures forall k :: k in m ==> k == s[|s| - 1].key || Less(k, s[|s| - 1].key)
  {
    forall k | k in m
      ensures k == s[|s| - 1].key || Less(k, s[|s| - 1].key)
    {
      var i := KeyAt(s, k);
    }
  }

  lemma UndoInsert<V>(m: map<Key, V>, k: Key, v: V)
    requires k !in m
    ensures m[k := v] - {k} == m
  {
  }

  lemma DropLast<V>(s: seq<KV<V>>)
    requires Ascending(s) && s != []
    ensures Lists(s[..|s| - 1], ToMap(s) - {s[|s| - 1].key})
  {
    var t, last := s[..|s| - 1], s[|s| - 1].key;
    if last in ToMap(t) {
      var i := KeyAt(t, last);
      LessTrichotomy(s[i].key, last);
      assert false;
    }
    UndoInsert(ToMap(t), last, s[|s| - 1].value);
  }

  function InsertAt<T>(s: seq<T>, p: nat, x: T): seq<T>
    requires p <= |s|
  {
    seq(|s| + 1, a requires 0 <= a < |s| + 1 => if a < p then s[a] else if a == p then x else s[a - 1])
  }

  /** Replacing the value in one place of an ascending list replaces one binding of its map. */
  lemma {:induction false} OverwriteMap<V>(s: seq<KV<V>>, p: nat, v: V)
    requires Ascending(s) && p < |s|
    ensures Ascending(s[p := KV(s[p].key, v)])
    ensures ToMap(s[p := KV(s[p].key, v)]) == ToMap(s)[s[p].key := v]
  {
    var k, n := s[p].key, |s| - 1;
    var s' := s[p := KV(k, v)];
    if p < n {
      OverwriteMap(s[..n], p, v);
      assert s'[..n] == s[..n][p := KV(k, v)] && s'[n] == s[n];
      LessTrichotomy(k, s[n].key);
      UpdatesCommute(ToMap(s[..n]), k, v, s[n].key, s[n].value);
    } else {
      assert s'[..n] == s[..n];
    }
  }

  /** Inserting a row where its key belongs adds one binding. */
  lemma {:induction false} InsertMap<V>(s: seq<KV<V>>, p: nat, row: KV<V>)
    requires Ascending(s) && p <= |s|
    requires forall i :: 0 <= i < p ==> Less(s[i].key, row.key)
    requires forall i :: p <= i < |s| ==> Less(row.key, s[i].key)
    ensures Ascending(InsertAt(s, p, row))
    ensures ToMap(InsertAt(s, p, row)) == ToMap(s)[row.key := row.value]
  {
    var s', n := InsertAt(s, p, row), |s| - 1;
    if p == |s| {
      assert s'[..p] == s;
    } else {
      InsertMap(s[..n], p, row);
      assert s'[..n + 1] == InsertAt(s[..n], p, row) && s'[n + 1] == s[n];
      LessTrichotomy(row.key, s[n].key);
      UpdatesCommute(ToMap(s[..n]), row.key, row.value, s[n].key, s[n].value);
    }
  }

  lemma UpdatesCommute<V>(m: map<Key, V>, a: Key, v: V, b: Key, w: V)
    requires a != b
    ensures m[a := v][b := w] == m[b := w][a := v]
  {
  }

  // ---- Listings of maps ----

  /** Where a new key belongs in an ascending list. */
  lemma {:induction false} PlaceOf<V>(s: seq<KV<V>>, k: Key) returns (p: nat)
    requires Ascending(s) && k !in ToMap(s)
    ensures p <= |s|
    ensures forall i :: 0 <= i < p ==> Less(s[i].key, k)
    ensures forall i :: p <= i < |s| ==> Less(k, s[i].key)
  {
    if s == [] {
      p := 0;
    } else {
      var front, last := s[..|s| - 1], s[|s| - 1];
      LessTrichotomy(last.key, k);
      if Less(last.key, k) {
        p := |s|;
        forall i | 0 <= i < p
          ensures Less(s[i].key, k)
        {
          if i < p - 1 {
            LessTransitive(s[i].key, last.key, k);
          }
        }
      } else {
        p := PlaceOf(front, k);
        assert forall i :: 0 <= i < |front| ==> s[i] == front[i];
      }
    }
  }

  /** Every map has a listing. */
  lemma {:induction false} HasListing<V>(m: map<Key, V>)
    ensures exists s :: Lists(s, m)
    decreases |m|
  {
    if m == map[] {
      assert Lists<V>([], m);
    } else {
      var k :| k in m;
      var rest := m - {k};
      HasListing(rest);
      var s :| Lists(s, rest);
      var p := PlaceOf(s, k);
      InsertMap(s, p, KV(k, m[k]));
      assert rest[k := m[k]] == m;
      assert Lists(InsertAt(s, p, KV(k, m[k])), m);
    }
  }

  /** The one listing of a map. */
  ghost function Listing<V>(m: map<Key, V>): (s: seq<KV<V>>)
    ensures Lists(s, m)
  {
    HasListing(m);
    var s :| Lists(s, m);
    s
  }
}
