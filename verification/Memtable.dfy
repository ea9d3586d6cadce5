/** The write buffer of the storage engine: a skip list of linked nodes (api/queel/memtable.go). */
module SkipList {
  import opened Bytes

  const MAX_LEVEL: nat := 16

  /** What is stored under a key; a tombstone records a deletion that must still shadow older runs. */
  datatype Cell = Cell(value: seq<Byte>, tombstone: bool)

  type Row = KV<Cell>

  /** The approximate footprint of rows: the lengths of their keys and values. */
  function TotalSize(rows: seq<Row>): int
  {
    if rows == [] then 0
    else TotalSize(rows[..|rows| - 1]) + |rows[|rows| - 1].key| + |rows[|rows| - 1].value.value|
  }

  /**
   * Who follows whom, by position along the bottom level: `t[a][i]` is the position of the node that
   * position `a` links to on level `i`, or `|t|` at the end of that level.
   */
  type Table = seq<seq<nat>>

  /** Position `a` links on level `i` to the next node tall enough for that level, skipping only lower ones. */
  ghost predicate LinksNext(t: Table, a: nat, i: nat)
    requires a < |t| && i < |t[a]|
  {
    && a < t[a][i] <= |t|
    && (t[a][i] < |t| ==> i < |t[t[a][i]]|)
    && (forall b :: a < b < t[a][i] ==> |t[b]| <= i)
  }

  /** Each level links exactly the nodes tall enough for it, in order: a sublist of the level below. */
  ghost predicate Linked(t: Table)
  {
    forall a: nat, i: nat {:trigger LinksNext(t, a, i)} :: a < |t| && i < |t[a]| ==> LinksNext(t, a, i)
  }

  /** `pos` holds, for every level below `height`, the last position before `q` linked on that level. */
  ghost predicate LastBefore(t: Table, pos: seq<nat>, q: nat, height: nat)
  {
    && 0 < q <= |t| && height <= |pos|
    && forall i :: 0 <= i < height ==> pos[i] < q && i < |t[pos[i]]| && q <= t[pos[i]][i]
  }

  function Shift(n: nat, q: nat): nat
  {
    if n < q then n else n + 1
  }

  /** What the links of position `a` become: on the levels where it precedes the tower they lead to it. */
  ghost function Redirect(t: Table, pos: seq<nat>, q: nat, height: nat, a: nat): (links: seq<nat>)
    requires a < |t| && height <= |pos|
  {
    seq(|t[a]|, i requires 0 <= i < |t[a]| => if i < height && pos[i] == a then q else Shift(t[a][i], q))
  }

  /** The links of the tower: those its predecessors had. */
  ghost function Tower(t: Table, pos: seq<nat>, q: nat, height: nat): (links: seq<nat>)
    requires LastBefore(t, pos, q, height)
  {
    seq(height, i requires 0 <= i < height => Shift(t[pos[i]][i], q))
  }

  /** The table after a tower of `height` is linked in at position `q` after its predecessors. */
  ghost function Insert(t: Table, pos: seq<nat>, q: nat, height: nat): (t': Table)
    requires LastBefore(t, pos, q, height)
  {
    seq(|t| + 1, a requires 0 <= a < |t| + 1 =>
      if a < q then Redirect(t, pos, q, height, a)
      else if a == q then Tower(t, pos, q, height)
      else Redirect(t, pos, q, 0, a - 1))
  }

  lemma InsertHeight(t: Table, pos: seq<nat>, q: nat, height: nat, b: nat)
    requires LastBefore(t, pos, q, height) && b <= |t|
    ensures |Insert(t, pos, q, height)[b]| == if b < q then |t[b]| else if b == q then height else |t[b - 1]|
  {
    var t' := Insert(t, pos, q, height);
    assert t'[b] == if b < q then Redirect(t, pos, q, height, b) else if b == q then Tower(t, pos, q, height)
                    else Redirect(t, pos, q, 0, b - 1);
  }

  lemma InsertHeights(t: Table, pos: seq<nat>, q: nat, height: nat)
    requires LastBefore(t, pos, q, height)
    ensures var t' := Insert(t, pos, q, height);
            && |t'| == |t| + 1
            && forall b :: 0 <= b < |t'| ==> |t'[b]| == if b < q then |t[b]| else if b == q then height else |t[b - 1]|
  {
    forall b | 0 <= b < |t| + 1 {
      InsertHeight(t, pos, q, height, b);
    }
  }

  /** A gap that lies on one side of the tower, or across it on a level it does not reach, stays a gap. */
  lemma GapShifts(t: Table, t': Table, q: nat, height: nat, a: nat, n: nat, i: nat)
    requires |t'| == |t| + 1 && q <= |t|
    requires forall b :: 0 <= b < |t'| ==> |t'[b]| == if b < q then |t[b]| else if b == q then height else |t[b - 1]|
    requires a < n <= |t|
    requires forall b :: a < b < n ==> |t[b]| <= i
    requires a < q <= n ==> height <= i
    ensures forall b :: Shift(a, q) < b < Shift(n, q) ==> |t'[b]| <= i
  {
    forall b | Shift(a, q) < b < Shift(n, q)
      ensures |t'[b]| <= i
    {
      if b < q {
        assert |t[b]| <= i;
      } else if b > q {
        assert |t[b - 1]| <= i;
      }
    }
  }

  /** Redirecting the predecessors alone, and no other link, keeps every level linked. */
  lemma InsertLinked(t: Table, pos: seq<nat>, q: nat, height: nat)
    requires Linked(t) && LastBefore(t, pos, q, height)
    ensures Linked(Insert(t, pos, q, height))
  {
    var t' := Insert(t, pos, q, height);
    forall a: nat, i: nat | a < |t'| && i < |t'[a]|
      ensures LinksNext(t', a, i)
    {
      InsertHeight(t, pos, q, height, a);
      if a < q {
        InsertLinkedBefore(t, pos, q, height, a, i);
      } else if a == q {
        InsertLinkedAt(t, pos, q, height, i);
      } else {
        InsertLinkedAfter(t, pos, q, height, a, i);
      }
    }
  }

  /** Only its predecessor on a level links across the tower. */
  lemma OnlyPredecessorCrosses(t: Table, pos: seq<nat>, q: nat, height: nat, a: nat, i: nat)
    requires Linked(t) && LastBefore(t, pos, q, height) && a < q && i < |t[a]|
    ensures i < height && pos[i] != a ==> t[a][i] < q
  {
    if i < height && pos[i] != a {
      assert LinksNext(t, a, i) && LinksNext(t, pos[i], i);
    }
  }

  lemma LinkBefore(t: Table, pos: seq<nat>, q: nat, height: nat, a: nat, i: nat)
    requires LastBefore(t, pos, q, height) && a < q && i < |t[a]|
    ensures var t' := Insert(t, pos, q, height);
            i < |t'[a]| && t'[a][i] == if i < height && pos[i] == a then q else Shift(t[a][i], q)
  {
    assert Insert(t, pos, q, height)[a] == Redirect(t, pos, q, height, a);
  }

  lemma InsertLinkedBefore(t: Table, pos: seq<nat>, q: nat, height: nat, a: nat, i: nat)
    requires Linked(t) && LastBefore(t, pos, q, height) && a < q && i < |t[a]|
    ensures i < |Insert(t, pos, q, height)[a]| && LinksNext(Insert(t, pos, q, height), a, i)
  {
    var t', n := Insert(t, pos, q, height), t[a][i];
    InsertHeights(t, pos, q, height);
    InsertHeight(t, pos, q, height, q);
    LinkBefore(t, pos, q, height, a, i);
    OnlyPredecessorCrosses(t, pos, q, height, a, i);
    assert LinksNext(t, a, i);
    hide Insert;
    hide Linked;
    if i < height && pos[i] == a {
      assert q <= n;
      assert t'[a][i] == q && |t'[q]| == height;
    } else {
      GapShifts(t, t', q, height, a, n, i);
      assert n < |t| ==> i < |t'[Shift(n, q)]|;
    }
  }

  lemma InsertLinkedAt(t: Table, pos: seq<nat>, q: nat, height: nat, i: nat)
    requires Linked(t) && LastBefore(t, pos, q, height) && i < height
    ensures i < |Insert(t, pos, q, height)[q]| && LinksNext(Insert(t, pos, q, height), q, i)
  {
    var t' := Insert(t, pos, q, height);
    InsertHeights(t, pos, q, height);
    assert t'[q] == Tower(t, pos, q, height);
    assert LinksNext(t, pos[i], i);
    var n := t[pos[i]][i];
    assert t'[q][i] == n + 1;
    hide Insert;
    hide Tower;
    forall b | q < b < n + 1
      ensures |t'[b]| <= i
    {
      assert |t[b - 1]| <= i;
    }
    assert n < |t| ==> i < |t'[n + 1]|;
  }

  lemma InsertLinkedAfter(t: Table, pos: seq<nat>, q: nat, height: nat, a: nat, i: nat)
    requires Linked(t) && LastBefore(t, pos, q, height) && q < a <= |t| && i < |t[a - 1]|
    ensures i < |Insert(t, pos, q, height)[a]| && LinksNext(Insert(t, pos, q, height), a, i)
  {
    var t' := Insert(t, pos, q, height);
    InsertHeights(t, pos, q, height);
    assert t'[a] == Redirect(t, pos, q, 0, a - 1);
    assert LinksNext(t, a - 1, i);
    var n := t[a - 1][i];
    assert t'[a][i] == n + 1;
    hide Insert;
    hide Redirect;
    GapShifts(t, t', q, height, a - 1, n, i);
    assert n < |t| ==> i < |t'[n + 1]|;
  }

  lemma {:induction false} OverwriteSize(rows: seq<Row>, p: nat, cell: Cell)
    requires p < |rows|
    ensures TotalSize(rows[p := KV(rows[p].key, cell)]) == TotalSize(rows) + |cell.value| - |rows[p].value.value|
  {
    var n := |rows| - 1;
    var rows' := rows[p := KV(rows[p].key, cell)];
    if p < n {
      OverwriteSize(rows[..n], p, cell);
      assert rows'[..n] == rows[..n][p := KV(rows[p].key, cell)];
    } else {
      assert rows'[..n] == rows[..n];
    }
  }

  lemma {:induction false} InsertSize(rows: seq<Row>, p: nat, row: Row)
    requires p <= |rows|
    ensures TotalSize(InsertAt(rows, p, row)) == TotalSize(rows) + |row.key| + |row.value.value|
  {
    var rows', n := InsertAt(rows, p, row), |rows| - 1;
    if p == |rows| {
      assert rows'[..p] == rows;
    } else {
      InsertSize(rows[..n], p, row);
      assert rows'[..n + 1] == InsertAt(rows[..n], p, row);
    }
  }

  /** Rows before `p` are below `key` and no row from `p` on is. */
  ghost predicate Splits(rows: seq<Row>, p: nat, key: Key)
  {
    && p <= |rows|
    && (forall a :: 0 <= a < p ==> Less(rows[a].key, key))
    && (forall a :: p <= a < |rows| ==> !Less(rows[a].key, key))
  }

  lemma SplitsFrom(rows: seq<Row>, p: nat, key: Key)
    requires Ascending(rows) && p <= |rows|
    requires p > 0 ==> Less(rows[p - 1].key, key)
    requires p < |rows| ==> !Less(rows[p].key, key)
    ensures Splits(rows, p, key)
  {
    forall a | 0 <= a < p
      ensures Less(rows[a].key, key)
    {
      if a < p - 1 {
        LessTransitive(rows[a].key, rows[p - 1].key, key);
      }
    }
    forall a | p <= a < |rows|
      ensures !Less(rows[a].key, key)
    {
      if Less(rows[a].key, key) && a > p {
        LessTransitive(rows[p].key, rows[a].key, key);
      }
    }
  }

  /** Where the rows split is the only place `key` can be. */
  lemma SplitFinds(rows: seq<Row>, p: nat, key: Key)
    requires Ascending(rows) && Splits(rows, p, key)
    ensures key in ToMap(rows) <==> p < |rows| && rows[p].key == key
    ensures key in ToMap(rows) ==> ToMap(rows)[key] == rows[p].value
    ensures key !in ToMap(rows) ==> forall a :: p <= a < |rows| ==> Less(key, rows[a].key)
  {
    if p < |rows| {
      BindingAt(rows, p);
    }
    if key in ToMap(rows) {
      var r := KeyAt(rows, key);
      LessIrreflexive(key);
      assert r == p;
    } else {
      forall a | p <= a < |rows|
        ensures Less(key, rows[a].key)
      {
        LessTrichotomy(rows[a].key, key);
        BindingAt(rows, a);
      }
    }
  }

  lemma AddedRow(rows: seq<Row>, p: nat, row: Row)
    requires Ascending(rows) && Splits(rows, p, row.key) && row.key !in ToMap(rows)
    ensures var rows' := InsertAt(rows, p, row);
            && Ascending(rows')
            && ToMap(rows') == ToMap(rows)[row.key := row.value]
            && TotalSize(rows') == TotalSize(rows) + |row.key| + |row.value.value|
  {
    SplitFinds(rows, p, row.key);
    InsertMap(rows, p, row);
    InsertSize(rows, p, row);
  }

  class SkipListNode {
    const key: Key
    var value: seq<Byte>
    var tombstone: bool
    var forward: seq<SkipListNode?>

    constructor (key: Key, value: seq<Byte>, tombstone: bool, height: nat)
      ensures this.key == key && this.value == value && this.tombstone == tombstone
      ensures forward == seq(height, _ => null)
    {
      this.key := key;
      this.value := value;
      this.tombstone := tombstone;
      forward := seq(height, _ => null);
    }
  }

  /** The node a position stands for: null past the end. */
  function NodeAt(chain: seq<SkipListNode>, n: nat): SkipListNode?
  {
    if n < |chain| then chain[n] else null
  }

  ghost function Refs(chain: seq<SkipListNode>, links: seq<nat>): seq<SkipListNode?>
  {
    seq(|links|, i requires 0 <= i < |links| => NodeAt(chain, links[i]))
  }

  /** The pointers of position `a` once the levels below `upto` lead to the new node where they should. */
  ghost function Redirected(chain: seq<SkipListNode>, t: Table, pos: seq<nat>, node: SkipListNode, upto: nat, a: nat)
    : (refs: seq<SkipListNode?>)
    requires a < |t| && upto <= |pos|
    ensures |refs| == |t[a]|
  {
    seq(|t[a]|, i requires 0 <= i < |t[a]| => if i < upto && pos[i] == a then node else NodeAt(chain, t[a][i]))
  }

  /** The pointers of the new node: those its predecessors had. */
  ghost function TowerRefs(chain: seq<SkipListNode>, t: Table, pos: seq<nat>, q: nat, height: nat): seq<SkipListNode?>
    requires LastBefore(t, pos, q, height)
  {
    seq(height, i requires 0 <= i < height => NodeAt(chain, t[pos[i]][i]))
  }

  lemma RedirectStep(chain: seq<SkipListNode>, t: Table, pos: seq<nat>, node: SkipListNode, i: nat, a: nat)
    requires a < |t| && i < |pos| && (pos[i] == a ==> i < |t[a]|)
    ensures Redirected(chain, t, pos, node, i + 1, a)
      == if pos[i] == a then Redirected(chain, t, pos, node, i, a)[i := node]
         else Redirected(chain, t, pos, node, i, a)
    ensures i < |t[a]| ==> Redirected(chain, t, pos, node, i, a)[i] == NodeAt(chain, t[a][i])
  {
    var r, r' := Redirected(chain, t, pos, node, i, a), Redirected(chain, t, pos, node, i + 1, a);
    assert r' == if pos[i] == a then r[i := node] else r;
  }

  /** Pointers and positions agree again once the node takes its place. */
  lemma RefsAfterInsert(chain: seq<SkipListNode>, t: Table, pos: seq<nat>, q: nat, height: nat,
      node: SkipListNode, a: nat)
    requires |chain| == |t| && LastBefore(t, pos, q, height) && a <= |t|
    ensures var chain', links := InsertAt(chain, q, node), Insert(t, pos, q, height)[a];
            Refs(chain', links)
              == if a < q then Redirected(chain, t, pos, node, height, a)
                 else if a == q then TowerRefs(chain, t, pos, q, height)
                 else Redirected(chain, t, pos, node, 0, a - 1)
  {
    assert Insert(t, pos, q, height)[a] ==
      if a < q then Redirect(t, pos, q, height, a)
      else if a == q then Tower(t, pos, q, height)
      else Redirect(t, pos, q, 0, a - 1);
    hide Insert;
    hide InsertAt;
    hide Refs;
    hide Redirected;
    hide Redirect;
    hide Tower;
    hide TowerRefs;
    if a < q {
      RefsRedirected(chain, t, pos, q, height, node, a);
    } else if a == q {
      RefsOfTower(chain, t, pos, q, height, node);
    } else {
      RefsRedirected(chain, t, pos, q, 0, node, a - 1);
    }
  }

  lemma RefsRedirected(chain: seq<SkipListNode>, t: Table, pos: seq<nat>, q: nat, height: nat,
      node: SkipListNode, a: nat)
    requires |chain| == |t| && q <= |t| && height <= |pos| && a < |t|
    ensures Refs(InsertAt(chain, q, node), Redirect(t, pos, q, height, a)) == Redirected(chain, t, pos, node, height, a)
  {
  }

  lemma RefsOfTower(chain: seq<SkipListNode>, t: Table, pos: seq<nat>, q: nat, height: nat, node: SkipListNode)
    requires |chain| == |t| && LastBefore(t, pos, q, height)
    ensures Refs(InsertAt(chain, q, node), Tower(t, pos, q, height)) == TowerRefs(chain, t, pos, q, height)
  {
  }

  /** Where the nodes are once a new one is at position `q`. */
  ghost function PlacesAfter(place: map<SkipListNode, nat>, q: nat, node: SkipListNode): map<SkipListNode, nat>
  {
    (map n | n in place :: Shift(place[n], q))[node := q]
  }

  lemma PlacesAfterInsert(chain: seq<SkipListNode>, place: map<SkipListNode, nat>, q: nat, node: SkipListNode)
    requires q <= |chain| && node !in place
    requires forall a :: 0 <= a < |chain| ==> chain[a] in place && place[chain[a]] == a
    ensures var chain', place' := InsertAt(chain, q, node), PlacesAfter(place, q, node);
            && (forall a :: 0 <= a < |chain'| ==> chain'[a] in place' && place'[chain'[a]] == a)
            && place'.Keys == place.Keys + {node}
  {
  }

  class Memtable {
    const head: SkipListNode
    var level: nat
    var size: int
    var entryCount: nat

    /** The nodes along the bottom level, the head first, with each node's place and its links. */
    ghost var chain: seq<SkipListNode>
    ghost var place: map<SkipListNode, nat>
    ghost var table: Table
    /** What the nodes after the head hold. */
    ghost var rows: seq<Row>

    ghost predicate Shape()
      reads this
    {
      && |chain| == |table| == |rows| + 1
      && chain[0] == head && |table[0]| == MAX_LEVEL
      && 1 <= level <= MAX_LEVEL
      && (forall a :: 0 <= a < |chain| ==> chain[a] in place && place[chain[a]] == a)
      && (forall a :: 0 < a < |table| ==> 1 <= |table[a]| <= level)
    }

    /** The nodes on the heap are linked as the table says. */
    ghost predicate Linkage()
      requires Shape()
      reads this, place.Keys
    {
      forall a :: 0 <= a < |chain| ==> chain[a].forward == Refs(chain, table[a])
    }

    ghost predicate Holdings()
      requires Shape()
      reads this, place.Keys
    {
      forall a :: 0 < a < |chain| ==>
        rows[a - 1] == KV(chain[a].key, Cell(chain[a].value, chain[a].tombstone))
    }

    ghost predicate Valid()
      reads this, place.Keys
    {
      && Shape() && Linkage() && Holdings()
      && Linked(table) && Ascending(rows)
      && size == TotalSize(rows) && entryCount == |rows|
    }

    ghost function Contents(): map<Key, Cell>
      reads this
    {
      ToMap(rows)
    }

    constructor ()
      ensures Valid() && fresh(place.Keys) && Contents() == map[] && size == 0
    {
      var h := new SkipListNode([], [], false, MAX_LEVEL);
      head := h;
      level := 1;
      size := 0;
      entryCount := 0;
      chain := [h];
      place := map[h := 0];
      table := [seq(MAX_LEVEL, _ => 1)];
      rows := [];
    }

    /** The coin flips of a new tower: any height from 1 to the maximum can come out. */
    static method RandomLevel() returns (newLevel: nat)
      ensures 1 <= newLevel <= MAX_LEVEL
    {
      newLevel := 1;
      var coin: bool :| true;
      while newLevel < MAX_LEVEL && coin
        invariant 1 <= newLevel <= MAX_LEVEL
      {
        newLevel := newLevel + 1;
        coin :| true;
      }
    }

    /**
     * The walk down the levels: the node to follow on each level, and `p`, the row at which `key` is
     * or belongs.
     */
    method Walk(key: Key) returns (update: seq<SkipListNode?>, ghost pos: seq<nat>, ghost p: nat)
      requires Valid()
      ensures Splits(rows, p, key) && |update| == |pos| == MAX_LEVEL
      ensures LastBefore(table, pos, p + 1, level)
      ensures forall j :: 0 <= j < level ==> update[j] == chain[pos[j]]
      ensures update[0].forward[0] == NodeAt(chain, p + 1)
    {
      hide Linkage;
      hide Holdings;
      hide Linked;
      hide Ascending;
      hide TotalSize;
      hide Splits;
      hide LastBefore;
      hide NodeAt;
      update, pos, p := seq(MAX_LEVEL, _ => null), seq(MAX_LEVEL, _ => 0), 0;
      var current := head;
      var i := level;
      while i > 0
        invariant 0 <= i <= level && |update| == |pos| == MAX_LEVEL
        invariant p < |chain| && chain[p] == current && i <= |table[p]|
        invariant p > 0 ==> Less(current.key, key)
        invariant forall j :: i <= j < level ==> pos[j] <= p && Recorded(update, pos, j, key)
        invariant i == 0 ==> pos[0] == p
      {
        i := i - 1;
        p, current := Advance(p, current, i, key);
        update, pos := update[i := current], pos[i := p];
      }
      WalkEnds(update, pos, p, key);
    }

    /** On level `j` the walk turned down at `pos[j]`, whose link there leads past the key. */
    ghost predicate Recorded(update: seq<SkipListNode?>, pos: seq<nat>, j: nat, key: Key)
      reads this, place.Keys
    {
      && j < |update| == |pos| && pos[j] < |chain| == |table| && j < |table[pos[j]]|
      && update[j] == chain[pos[j]] && Beyond(table[pos[j]][j], key)
    }

    lemma WalkEnds(update: seq<SkipListNode?>, pos: seq<nat>, p: nat, key: Key)
      requires Valid() && |update| == |pos| == MAX_LEVEL && p < |chain|
      requires p > 0 ==> Less(chain[p].key, key)
      requires forall j :: 0 <= j < level ==> pos[j] <= p && Recorded(update, pos, j, key)
      requires pos[0] == p
      ensures Splits(rows, p, key) && LastBefore(table, pos, p + 1, level)
      ensures forall j :: 0 <= j < level ==> update[j] == chain[pos[j]]
      ensures update[0].forward[0] == NodeAt(chain, p + 1)
    {
      hide Ascending;
      hide TotalSize;
      assert Recorded(update, pos, 0, key);
      BottomLink(p);
      SplitAt(p, key);
      hide Linkage;
      forall j | 0 <= j < level
        ensures p + 1 <= table[pos[j]][j]
      {
        assert Recorded(update, pos, j, key);
        assert LinksNext(table, pos[j], j);
      }
    }

    /** On the bottom level each node links to the one after it. */
    lemma BottomLink(p: nat)
      requires Valid() && p < |chain| && 0 < |table[p]|
      ensures table[p][0] == p + 1 && |chain[p].forward| > 0 && chain[p].forward[0] == NodeAt(chain, p + 1)
    {
      hide Ascending;
      hide TotalSize;
      hide Holdings;
      assert LinksNext(table, p, 0);
      assert p + 1 < |table| ==> |table[p + 1]| > 0;
    }

    /** The node at position `n`, if there is one, is not below `key`. */
    ghost predicate Beyond(n: nat, key: Key)
      reads this, place.Keys
    {
      n < |chain| ==> !Less(chain[n].key, key)
    }

    /** Moves along one level as far as the keys stay below `key`. */
    method Advance(ghost p: nat, node: SkipListNode, i: nat, key: Key)
      returns (ghost p': nat, current: SkipListNode)
      requires Valid() && p < |chain| && chain[p] == node && i < |table[p]|
      requires p > 0 ==> Less(node.key, key)
      ensures p <= p' < |chain| && chain[p'] == current && i < |table[p']|
      ensures p' > 0 ==> Less(current.key, key)
      ensures Beyond(table[p'][i], key)
    {
      p', current := p, node;
      while current.forward[i] != null && Less(current.forward[i].key, key)
        invariant p <= p' < |chain| && chain[p'] == current && i < |table[p']|
        invariant p' > 0 ==> Less(current.key, key)
        decreases |chain| - p'
      {
        assert LinksNext(table, p', i);
        p' := table[p'][i];
        current := current.forward[i];
      }
    }

    lemma SplitAt(p: nat, key: Key)
      requires Valid() && p <= |rows|
      requires p > 0 ==> Less(chain[p].key, key)
      requires Beyond(p + 1, key)
      ensures Splits(rows, p, key)
    {
      assert p > 0 ==> rows[p - 1].key == chain[p].key;
      assert p < |rows| ==> rows[p].key == chain[p + 1].key;
      SplitsFrom(rows, p, key);
    }

    method Get(key: Key) returns (value: seq<Byte>, tombstone: bool, found: bool)
      requires Valid()
      ensures found == (key in Contents())
      ensures found ==> Contents()[key] == Cell(value, tombstone)
      ensures !found ==> value == [] && !tombstone
    {
      var current := head;
      ghost var p: nat := 0;
      var i := level;
      while i > 0
        invariant 0 <= i <= level
        invariant p < |chain| && chain[p] == current && i <= |table[p]|
        invariant p > 0 ==> Less(current.key, key)
        invariant i == 0 ==> 0 < |table[p]| && Beyond(table[p][0], key)
      {
        i := i - 1;
        p, current := Advance(p, current, i, key);
      }
      assert LinksNext(table, p, 0);
      SplitAt(p, key);
      SplitFinds(rows, p, key);
      if current.forward[0] != null && current.forward[0].key == key {
        return current.forward[0].value, current.forward[0].tombstone, true;
      }
      return [], false, false;
    }

    /** Inserts or overwrites `key`, whatever height a new node draws. */
    method Put(key: Key, value: seq<Byte>, tombstone: bool)
      requires Valid()
      modifies this, place.Keys
      ensures Valid() && fresh(place.Keys - old(place.Keys))
      ensures Contents() == old(Contents())[key := Cell(value, tombstone)]
    {
      var update, pos, p := Walk(key);
      SplitFinds(rows, p, key);
      var current := update[0].forward[0];
      if current != null && current.key == key {
        Overwrite(current, value, tombstone, p);
      } else {
        Add(key, value, tombstone, update, pos, p);
      }
    }

    /** The key is already there: its node takes the new value. */
    method Overwrite(node: SkipListNode, value: seq<Byte>, tombstone: bool, ghost p: nat)
      requires Valid() && p < |rows| && node == chain[p + 1]
      modifies this`size, this`rows, node`value, node`tombstone
      ensures Valid()
      ensures Contents() == old(Contents())[node.key := Cell(value, tombstone)]
    {
      hide ToMap;
      hide TotalSize;
      hide Linked;
      hide Refs;
      OverwriteMap(rows, p, Cell(value, tombstone));
      OverwriteSize(rows, p, Cell(value, tombstone));
      size := size + (|value| - |node.value|);
      node.value := value;
      node.tombstone := tombstone;
      rows := rows[p := KV(node.key, Cell(value, tombstone))];
    }

    /** The key is new: a node of random height is linked in after its predecessors. */
    method Add(key: Key, value: seq<Byte>, tombstone: bool, update: seq<SkipListNode?>, ghost pos: seq<nat>,
        ghost p: nat)
      requires Valid() && key !in Contents() && Splits(rows, p, key)
      requires |update| == |pos| == MAX_LEVEL && LastBefore(table, pos, p + 1, level)
      requires forall j :: 0 <= j < level ==> update[j] == chain[pos[j]]
      modifies this, place.Keys
      ensures Valid() && fresh(place.Keys - old(place.Keys))
      ensures Contents() == old(Contents())[key := Cell(value, tombstone)]
    {
      hide ToMap;
      hide TotalSize;
      hide Linked;
      hide Insert;
      var newLevel := RandomLevel();
      var update', pos' := Raise(newLevel, update, pos, p + 1);
      var node := new SkipListNode(key, value, tombstone, newLevel);
      Attach(node, update', newLevel, pos', p);
    }

    method Attach(node: SkipListNode, update: seq<SkipListNode?>, newLevel: nat, ghost pos: seq<nat>, ghost p: nat)
      requires Valid() && node !in place && node.key !in Contents() && Splits(rows, p, node.key)
      requires 1 <= newLevel <= level && |update| == |pos| == MAX_LEVEL
      requires LastBefore(table, pos, p + 1, newLevel)
      requires forall j :: 0 <= j < newLevel ==> update[j] == chain[pos[j]]
      requires |node.forward| == newLevel
      modifies this`size, this`entryCount, this`chain, this`table, this`place, this`rows
      modifies place.Keys`forward, node`forward
      ensures Valid() && place.Keys == old(place.Keys) + {node}
      ensures Contents() == old(Contents())[node.key := Cell(node.value, node.tombstone)]
    {
      hide ToMap;
      hide TotalSize;
      hide Linked;
      hide Insert;
      hide Ascending;
      hide Splits;
      hide Refs;
      Link(node, update, newLevel, pos, p + 1);
      size := size + (|node.key| + |node.value|);
      entryCount := entryCount + 1;
      Admit(node, pos, p, newLevel);
    }

    /** A node the pointers already lead through enters the recorded chain and rows. */
    ghost method Admit(node: SkipListNode, pos: seq<nat>, p: nat, newLevel: nat)
      requires Shape() && Holdings() && Linked(table) && Ascending(rows)
      requires node !in place && node.key !in ToMap(rows) && Splits(rows, p, node.key)
      requires LastBefore(table, pos, p + 1, newLevel)
      requires 1 <= newLevel <= level && Spliced(node, newLevel, pos, p + 1)
      requires size == TotalSize(rows) + |node.key| + |node.value| && entryCount == |rows| + 1
      modifies this`chain, this`table, this`place, this`rows
      ensures Valid() && place.Keys == old(place.Keys) + {node}
      ensures Contents() == old(Contents())[node.key := Cell(node.value, node.tombstone)]
    {
      hide ToMap;
      hide TotalSize;
      hide Linked;
      hide Insert;
      AddedRow(rows, p, KV(node.key, Cell(node.value, node.tombstone)));
      InsertLinked(table, pos, p + 1, newLevel);
      hide Ascending;
      hide Splits;
      Weave(node, pos, p + 1, newLevel);
    }

    /** Links a new tower after its predecessors, level by level. */
    method Link(node: SkipListNode, update: seq<SkipListNode?>, newLevel: nat, ghost pos: seq<nat>, ghost q: nat)
      requires Shape() && Linkage() && node !in place
      requires newLevel <= MAX_LEVEL && |update| == |pos| == MAX_LEVEL
      requires LastBefore(table, pos, q, newLevel)
      requires forall j :: 0 <= j < newLevel ==> update[j] == chain[pos[j]]
      requires |node.forward| == newLevel
      modifies place.Keys`forward, node`forward
      ensures Spliced(node, newLevel, pos, q)
    {
      var i := 0;
      assert forall a :: 0 <= a < |chain| ==> Redirected(chain, table, pos, node, 0, a) == Refs(chain, table[a]);
      assert LinkedUpTo(node, pos, 0, newLevel);
      hide Refs;
      hide Redirected;
      hide NodeAt;
      hide LinkedUpTo;
      while i < newLevel
        invariant 0 <= i <= newLevel && |node.forward| == newLevel
        invariant LinkedUpTo(node, pos, i, newLevel)
      {
        LinkLevel(node, update[i], i, newLevel, pos, q);
        i := i + 1;
      }
      LinkedAll(node, pos, q, newLevel);
    }

    /** The lowest `i` levels lead through `node`. */
    ghost predicate LinkedUpTo(node: SkipListNode, pos: seq<nat>, i: nat, newLevel: nat)
      requires Shape() && i <= newLevel <= |pos|
        && forall j :: 0 <= j < newLevel ==> pos[j] < |table| && j < |table[pos[j]]|
      reads this, place.Keys, node
    {
      && |node.forward| == newLevel
      && (forall a :: 0 <= a < |chain| ==> chain[a].forward == Redirected(chain, table, pos, node, i, a))
      && forall j :: 0 <= j < i ==> node.forward[j] == NodeAt(chain, table[pos[j]][j])
    }

    method LinkLevel(node: SkipListNode, before: SkipListNode?, i: nat, newLevel: nat, ghost pos: seq<nat>,
        ghost q: nat)
      requires Shape() && node !in place && i < newLevel <= |pos| && LastBefore(table, pos, q, newLevel)
      requires before == chain[pos[i]] && LinkedUpTo(node, pos, i, newLevel)
      modifies place.Keys`forward, node`forward
      ensures LinkedUpTo(node, pos, i + 1, newLevel)
    {
      hide Refs;
      hide Redirected;
      hide NodeAt;
      forall a | 0 <= a < |chain|
        ensures Redirected(chain, table, pos, node, i + 1, a)
          == if pos[i] == a then Redirected(chain, table, pos, node, i, a)[i := node]
             else Redirected(chain, table, pos, node, i, a)
        ensures i < |table[a]| ==> Redirected(chain, table, pos, node, i, a)[i] == NodeAt(chain, table[a][i])
      {
        RedirectStep(chain, table, pos, node, i, a);
      }
      node.forward := node.forward[i := before.forward[i]];
      before.forward := before.forward[i := node];
    }

    lemma LinkedAll(node: SkipListNode, pos: seq<nat>, q: nat, newLevel: nat)
      requires Shape() && newLevel <= |pos| && LastBefore(table, pos, q, newLevel)
        && LinkedUpTo(node, pos, newLevel, newLevel)
      ensures Spliced(node, newLevel, pos, q)
    {
      assert node.forward == TowerRefs(chain, table, pos, q, newLevel);
    }

    /** The pointers lead through `node`, which is not yet in the recorded chain. */
    ghost predicate Spliced(node: SkipListNode, newLevel: nat, pos: seq<nat>, q: nat)
      requires Shape() && newLevel <= |pos| && LastBefore(table, pos, q, newLevel)
      reads this, place.Keys, node
    {
      && (forall a :: 0 <= a < |chain| ==> chain[a].forward == Redirected(chain, table, pos, node, newLevel, a))
      && node.forward == TowerRefs(chain, table, pos, q, newLevel)
    }

    lemma SplicedRefs(node: SkipListNode, pos: seq<nat>, q: nat, newLevel: nat)
      requires Shape() && newLevel <= |pos| && LastBefore(table, pos, q, newLevel)
      requires Spliced(node, newLevel, pos, q)
      ensures var chain', table' := InsertAt(chain, q, node), Insert(table, pos, q, newLevel);
              forall a: nat :: a < |chain'| ==> chain'[a].forward == Refs(chain', table'[a])
    {
      var chain', table' := InsertAt(chain, q, node), Insert(table, pos, q, newLevel);
      forall a: nat | a < |chain'|
        ensures chain'[a].forward == Refs(chain', table'[a])
      {
        assert chain'[a] == if a < q then chain[a] else if a == q then node else chain[a - 1];
        RefsAfterInsert(chain, table, pos, q, newLevel, node, a);
        if q < a {
          assert Redirected(chain, table, pos, node, 0, a - 1) == Redirected(chain, table, pos, node, newLevel, a - 1);
        }
      }
    }

    /** The new node takes its place in the recorded chain. */
    ghost method Weave(node: SkipListNode, pos: seq<nat>, q: nat, newLevel: nat)
      requires Shape() && Holdings() && node !in place && LastBefore(table, pos, q, newLevel)
      requires 1 <= newLevel <= level && Spliced(node, newLevel, pos, q)
      modifies this`chain, this`table, this`place, this`rows
      ensures Shape() && Linkage() && Holdings()
      ensures chain == InsertAt(old(chain), q, node)
      ensures table == Insert(old(table), pos, q, newLevel)
      ensures place.Keys == old(place.Keys) + {node}
      ensures rows == InsertAt(old(rows), q - 1, KV(node.key, Cell(node.value, node.tombstone)))
    {
      var chain' := InsertAt(chain, q, node);
      var table' := Insert(table, pos, q, newLevel);
      var rows' := InsertAt(rows, q - 1, KV(node.key, Cell(node.value, node.tombstone)));
      SplicedRefs(node, pos, q, newLevel);
      ShapeAfterInsert(node, pos, q, newLevel);
      HoldingsAfterInsert(node, q);
      PlacesAfterInsert(chain, place, q, node);
      hide Insert;
      hide InsertAt;
      hide Refs;
      hide LastBefore;
      hide Spliced;
      hide PlacesAfter;
      place := PlacesAfter(place, q, node);
      chain, table, rows := chain', table', rows';
    }

    lemma ShapeAfterInsert(node: SkipListNode, pos: seq<nat>, q: nat, newLevel: nat)
      requires Shape() && LastBefore(table, pos, q, newLevel) && 1 <= newLevel <= level
      ensures var chain', table' := InsertAt(chain, q, node), Insert(table, pos, q, newLevel);
              && |chain'| == |table'| == |rows| + 2
              && chain'[0] == head && |table'[0]| == MAX_LEVEL
              && forall a :: 0 < a < |table'| ==> 1 <= |table'[a]| <= level
    {
      var table' := Insert(table, pos, q, newLevel);
      forall a | 0 < a < |table'|
        ensures 1 <= |table'[a]| <= level
      {
        InsertHeight(table, pos, q, newLevel, a);
        assert a < q ==> 1 <= |table[a]| <= level;
        assert a > q ==> 1 <= |table[a - 1]| <= level;
      }
      InsertHeight(table, pos, q, newLevel, 0);
    }

    lemma HoldingsAfterInsert(node: SkipListNode, q: nat)
      requires Shape() && Holdings() && 0 < q <= |chain|
      ensures var chain', row := InsertAt(chain, q, node), KV(node.key, Cell(node.value, node.tombstone));
              forall a :: 0 < a < |chain'| ==>
                InsertAt(rows, q - 1, row)[a - 1] == KV(chain'[a].key, Cell(chain'[a].value, chain'[a].tombstone))
    {
      var chain', rows' :=
        InsertAt(chain, q, node), InsertAt(rows, q - 1, KV(node.key, Cell(node.value, node.tombstone)));
      forall a | 0 < a < |chain'|
        ensures rows'[a - 1] == KV(chain'[a].key, Cell(chain'[a].value, chain'[a].tombstone))
      {
        assert a < q ==> chain'[a] == chain[a] && rows'[a - 1] == rows[a - 1];
        assert a > q ==> chain'[a] == chain[a - 1] && rows'[a - 1] == rows[a - 2];
      }
    }

    method Raise(newLevel: nat, update: seq<SkipListNode?>, ghost pos: seq<nat>, ghost q: nat)
      returns (update': seq<SkipListNode?>, ghost pos': seq<nat>)
      requires Valid() && newLevel <= MAX_LEVEL && |update| == |pos| == MAX_LEVEL
      requires LastBefore(table, pos, q, level)
      requires forall j :: 0 <= j < level ==> update[j] == chain[pos[j]]
      modifies this`level
      ensures Valid() && level == (if newLevel > old(level) then newLevel else old(level))
      ensures |update'| == |pos'| == MAX_LEVEL
      ensures LastBefore(table, pos', q, level)
      ensures forall j :: 0 <= j < level ==> update'[j] == chain[pos'[j]]
    {
      update', pos' := update, pos;
      if newLevel > level {
        var i := level;
        while i < newLevel
          invariant level <= i <= newLevel && |update'| == |pos'| == MAX_LEVEL
          invariant LastBefore(table, pos', q, i)
          invariant forall j :: 0 <= j < i ==> update'[j] == chain[pos'[j]]
        {
          assert LinksNext(table, 0, i);
          update', pos' := update'[i := head], pos'[i := 0];
          i := i + 1;
        }
        level := newLevel;
      }
    }

    method Entries() returns (entries: seq<Row>)
      requires Valid()
      ensures Lists(entries, Contents())
      ensures TotalSize(entries) == size
    {
      entries := [];
      var node := head.forward[0];
      assert LinksNext(table, 0, 0);
      while node != null
        invariant |entries| <= |rows| && entries == rows[..|entries|]
        invariant node == NodeAt(chain, |entries| + 1)
        decreases |rows| - |entries|
      {
        assert LinksNext(table, |entries| + 1, 0);
        entries := entries + [KV(node.key, Cell(node.value, node.tombstone))];
        node := node.forward[0];
      }
      assert entries == rows;
    }
  }
}
