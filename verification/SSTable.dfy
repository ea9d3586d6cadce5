/** Immutable sorted runs on disk: their byte format, index and lookup (api/queel/sstable.go). */
module SortedRuns {
  import opened Wrappers
  import opened Bytes
  import opened Binary
  import opened Sorting
  import opened SkipList

  /** Stored in place of a value length to mark a deleted key. */
  const TOMBSTONE_MARKER: nat := 0xFFFF_FFFF

  const HEADER := 8

  datatype ReadError = UnexpectedEOF

  datatype IndexEntry = IndexEntry(key: Key, offset: nat)

  /** A run file is named by its sequence number; its index is kept in memory. */
  datatype SSTable = SSTable(number: nat, index: seq<IndexEntry>)

  datatype Lookup = Absent | Present(cell: Cell)

  function LookUp(m: map<Key, Cell>, key: Key): Lookup
  {
    if key in m then Present(m[key]) else Absent
  }

  // ---- The file format ----

  function Record(row: Row): seq<Byte>
  {
    PutUint32(|row.key|)
    + PutUint32(if row.value.tombstone then TOMBSTONE_MARKER else |row.value.value|)
    + row.key
    + if row.value.tombstone then [] else row.value.value
  }

  function FileOf(rows: seq<Row>): seq<Byte>
  {
    if rows == [] then [] else Record(rows[0]) + FileOf(rows[1..])
  }

  /** One record read off the front of `b`, with how many bytes it took. */
  function ReadRecord(b: seq<Byte>): Result<(Row, nat), ReadError>
  {
    if |b| < HEADER then Err(UnexpectedEOF) else
    var keyLen, valueLen := Uint32(b[0..4]), Uint32(b[4..8]);
    if |b| < HEADER + keyLen then Err(UnexpectedEOF) else
    var key := b[HEADER..HEADER + keyLen];
    if valueLen == TOMBSTONE_MARKER then Ok((KV(key, Cell([], true)), HEADER + keyLen))
    else if |b| < HEADER + keyLen + valueLen then Err(UnexpectedEOF)
    else Ok((KV(key, Cell(b[HEADER + keyLen..HEADER + keyLen + valueLen], false)), HEADER + keyLen + valueLen))
  }

  function Parse(file: seq<Byte>): Result<seq<Row>, ReadError>
    decreases |file|
  {
    if file == [] then Ok([]) else
    match ReadRecord(file)
    case Err(e) => Err(e)
    case Ok((row, n)) =>
      match Parse(file[n..])
      case Err(e) => Err(e)
      case Ok(rows) => Ok([row] + rows)
  }

  /** The rows the format can represent: no truncated length, no length mistaken for the marker. */
  predicate Encodable(row: Row)
  {
    && |row.key| < UINT32
    && if row.value.tombstone then row.value.value == [] else |row.value.value| < TOMBSTONE_MARKER
  }

  lemma ReadsRecord(row: Row, rest: seq<Byte>)
    requires Encodable(row)
    ensures ReadRecord(Record(row) + rest) == Ok((row, |Record(row)|))
  {
    hide PutUint32;
    hide Uint32;
    var valueLen := if row.value.tombstone then TOMBSTONE_MARKER else |row.value.value|;
    var value := if row.value.tombstone then [] else row.value.value;
    ReadBack(|row.key|);
    ReadBack(valueLen);
    Fields(PutUint32(|row.key|), PutUint32(valueLen), row.key, value, rest);
  }

  lemma Fields(a: seq<Byte>, b: seq<Byte>, key: seq<Byte>, value: seq<Byte>, rest: seq<Byte>)
    requires |a| == |b| == 4
    ensures var s := (a + b + key + value) + rest;
            && s[0..4] == a && s[4..8] == b && s[8..8 + |key|] == key
            && s[8 + |key|..8 + |key| + |value|] == value
  {
  }

  /** Reading undoes writing, record by record. */
  lemma {:induction false} ParseFile(rows: seq<Row>)
    requires forall i :: 0 <= i < |rows| ==> Encodable(rows[i])
    ensures Parse(FileOf(rows)) == Ok(rows)
  {
    if rows != [] {
      hide Record;
      hide ReadRecord;
      ReadsRecord(rows[0], FileOf(rows[1..]));
      ParseFile(rows[1..]);
      assert [rows[0]] + rows[1..] == rows;
      assert FileOf(rows)[|Record(rows[0])|..] == FileOf(rows[1..]);
    }
  }

  lemma RecordRead(b: seq<Byte>)
    requires ReadRecord(b).Ok?
    ensures var (row, n) := ReadRecord(b).value; Encodable(row) && n <= |b| && Record(row) == b[..n]
  {
    var keyLen, valueLen := Uint32(b[0..4]), Uint32(b[4..8]);
    WriteBack(b[0..4]);
    WriteBack(b[4..8]);
    assert b[..8] == b[0..4] + b[4..8];
    assert b[..8 + keyLen] == b[..8] + b[8..8 + keyLen];
    if valueLen != TOMBSTONE_MARKER {
      assert b[..8 + keyLen + valueLen] == b[..8 + keyLen] + b[8 + keyLen..8 + keyLen + valueLen];
    }
  }

  /** Writing undoes reading: a readable file is the image of exactly the rows read from it. */
  lemma {:induction false} FileParsed(file: seq<Byte>)
    requires Parse(file).Ok?
    ensures var rows := Parse(file).value;
            FileOf(rows) == file && forall i :: 0 <= i < |rows| ==> Encodable(rows[i])
    decreases |file|
  {
    if file != [] {
      RecordRead(file);
      var (row, n) := ReadRecord(file).value;
      FileParsed(file[n..]);
      assert file == file[..n] + file[n..];
      var rows := Parse(file).value;
      assert rows[1..] == Parse(file[n..]).value;
    }
  }

  /** Which rows survive the format: exactly those whose lengths fit. */
  lemma RoundTripExactly(rows: seq<Row>)
    ensures Parse(FileOf(rows)) == Ok(rows) <==> forall i :: 0 <= i < |rows| ==> Encodable(rows[i])
  {
    if Parse(FileOf(rows)) == Ok(rows) {
      FileParsed(FileOf(rows));
    } else if forall i :: 0 <= i < |rows| ==> Encodable(rows[i]) {
      ParseFile(rows);
    }
  }

  /** Bytes that follow a complete record do not change how it reads. */
  lemma RecordFits(b: seq<Byte>, more: seq<Byte>)
    requires ReadRecord(b).Ok?
    ensures ReadRecord(b + more) == ReadRecord(b) && ReadRecord(b).value.1 <= |b|
  {
    RecordRead(b);
    var (row, n) := ReadRecord(b).value;
    assert b + more == Record(row) + (b[n..] + more);
    assert b == Record(row) + b[n..];
    ReadsRecord(row, b[n..] + more);
    ReadsRecord(row, b[n..]);
  }

  /** A record that is cut short does not read. */
  lemma TornRecord(row: Row, n: nat)
    requires Encodable(row) && n < |Record(row)|
    ensures ReadRecord(Record(row)[..n]).Err?
  {
    var record := Record(row);
    assert record[..n] + record[n..] == record == record + [];
    ReadsRecord(row, []);
    hide ReadRecord;
    hide Record;
    if ReadRecord(record[..n]).Ok? {
      RecordFits(record[..n], record[n..]);
    }
  }

  /** The length is that of so many whole records. */
  ghost predicate IsBoundary(rows: seq<Row>, n: nat)
  {
    exists i :: 0 <= i <= |rows| && n == |FileOf(rows[..i])|
  }

  lemma BoundaryInRest(rows: seq<Row>, n: nat)
    requires rows != [] && |Record(rows[0])| > 0
    ensures n >= |Record(rows[0])| ==> (IsBoundary(rows, n) <==> IsBoundary(rows[1..], n - |Record(rows[0])|))
    ensures n < |Record(rows[0])| ==> (IsBoundary(rows, n) <==> n == 0)
  {
    hide Record;
    assert rows[..0] == [];
    forall i | 0 < i <= |rows|
      ensures |FileOf(rows[..i])| == |Record(rows[0])| + |FileOf(rows[1..][..i - 1])|
    {
      assert rows[..i][0] == rows[0] && rows[..i][1..] == rows[1..][..i - 1];
    }
    var rest := rows[1..];
    if n >= |Record(rows[0])| && IsBoundary(rest, n - |Record(rows[0])|) {
      var i :| 0 <= i <= |rest| && n - |Record(rows[0])| == |FileOf(rest[..i])|;
      assert n == |FileOf(rows[..i + 1])|;
    }
  }

  /** A file that was cut short reads exactly if the cut is between two records. */
  lemma {:induction false} TornFileExactly(rows: seq<Row>, n: nat)
    requires (forall i :: 0 <= i < |rows| ==> Encodable(rows[i])) && n <= |FileOf(rows)|
    ensures Parse(FileOf(rows)[..n]).Ok? <==> IsBoundary(rows, n)
  {
    hide Record;
    hide IsBoundary;
    hide FileOf;
    hide Parse;
    hide Encodable;
    if rows == [] {
      NoRecords();
    } else {
      var record, rest := Record(rows[0]), FileOf(rows[1..]);
      FirstRecord(rows);
      BoundaryInRest(rows, n);
      TakeOfSum(record, rest, n);
      if n < |record| {
        ParseTorn(rows[0], n);
      } else {
        ParseAfter(rows[0], rest[..n - |record|]);
        TornFileExactly(rows[1..], n - |record|);
      }
    }
  }

  lemma NoRecords()
    ensures FileOf([]) == [] && Parse([]).Ok? && IsBoundary([], 0)
  {
    var none: seq<Row> := [];
    assert none[..0] == none;
  }

  lemma FirstRecord(rows: seq<Row>)
    requires rows != []
    ensures FileOf(rows) == Record(rows[0]) + FileOf(rows[1..]) && |Record(rows[0])| > 0
  {
    RecordNotEmpty(rows[0]);
  }

  lemma ParseTorn(row: Row, n: nat)
    requires Encodable(row) && n < |Record(row)|
    ensures Parse(Record(row)[..n]).Ok? <==> n == 0
  {
    TornRecord(row, n);
  }

  lemma ParseAfter(row: Row, rest: seq<Byte>)
    requires Encodable(row)
    ensures Parse(Record(row) + rest).Ok? <==> Parse(rest).Ok?
  {
    RecordNotEmpty(row);
    ReadsRecord(row, rest);
    hide Record;
    hide ReadRecord;
    assert (Record(row) + rest)[|Record(row)|..] == rest;
  }

  lemma TakeOfSum<T>(a: seq<T>, b: seq<T>, n: nat)
    requires n <= |a| + |b|
    ensures n < |a| ==> (a + b)[..n] == a[..n]
    ensures n >= |a| ==> (a + b)[..n] == a + b[..n - |a|] && (a + b[..n - |a|])[|a|..] == b[..n - |a|]
  {
  }

  lemma RecordNotEmpty(row: Row)
    ensures |Record(row)| > 0
  {
  }

  /** What it then reads as: the rows before the cut. */
  lemma TornFileReads(rows: seq<Row>, i: nat)
    requires (forall i :: 0 <= i < |rows| ==> Encodable(rows[i])) && i <= |rows|
    ensures |FileOf(rows[..i])| <= |FileOf(rows)| && FileOf(rows)[..|FileOf(rows[..i])|] == FileOf(rows[..i])
    ensures Parse(FileOf(rows[..i])) == Ok(rows[..i])
  {
    ParseFile(rows[..i]);
    FileOfPrefix(rows, i);
  }

  lemma {:induction false} FileOfPrefix(rows: seq<Row>, i: nat)
    requires i <= |rows|
    ensures |FileOf(rows[..i])| <= |FileOf(rows)| && FileOf(rows)[..|FileOf(rows[..i])|] == FileOf(rows[..i])
  {
    hide Record;
    if i == 0 {
      assert rows[..0] == [];
    } else {
      FileOfPrefix(rows[1..], i - 1);
      assert rows[..i][0] == rows[0] && rows[..i][1..] == rows[1..][..i - 1];
    }
  }

  // ---- The index ----

  /** Where each record starts, the first one at `offset`. */
  function IndexOf(rows: seq<Row>, offset: nat): (index: seq<IndexEntry>)
    ensures |index| == |rows|
  {
    if rows == [] then []
    else [IndexEntry(rows[0].key, offset)] + IndexOf(rows[1..], offset + |Record(rows[0])|)
  }

  lemma {:induction false} IndexAt(rows: seq<Row>, offset: nat, i: nat)
    requires i < |rows|
    ensures IndexOf(rows, offset)[i] == IndexEntry(rows[i].key, offset + |FileOf(rows[..i])|)
    ensures |FileOf(rows[..i])| <= |FileOf(rows)|
    ensures FileOf(rows)[|FileOf(rows[..i])|..] == FileOf(rows[i..])
  {
    if i > 0 {
      IndexAt(rows[1..], offset + |Record(rows[0])|, i - 1);
      assert rows[..i][1..] == rows[1..][..i - 1];
      assert rows[1..][i - 1..] == rows[i..];
    }
  }

  lemma {:induction false} FileOfAppend(rows: seq<Row>, row: Row, offset: nat)
    ensures FileOf(rows + [row]) == FileOf(rows) + Record(row)
    ensures IndexOf(rows + [row], offset) == IndexOf(rows, offset) + [IndexEntry(row.key, offset + |FileOf(rows)|)]
  {
    hide Record;
    if rows == [] {
      assert rows + [row] == [row] && [row][1..] == [];
    } else {
      FileOfAppend(rows[1..], row, offset + |Record(rows[0])|);
      assert (rows + [row])[1..] == rows[1..] + [row];
      Regroup(Record(rows[0]), FileOf(rows[1..]), Record(row));
      Regroup([IndexEntry(rows[0].key, offset)], IndexOf(rows[1..], offset + |Record(rows[0])|),
        [IndexEntry(row.key, offset + |Record(rows[0])| + |FileOf(rows[1..])|)]);
    }
  }

  lemma Regroup<T>(a: seq<T>, b: seq<T>, c: seq<T>)
    ensures a + (b + c) == (a + b) + c
  {
  }

  lemma EmptyFile()
    ensures FileOf([]) == [] && IndexOf([], 0) == []
  {
  }

  /** `rows` are what a file and its index amount to so far. */
  ghost predicate Covers(file: seq<Byte>, index: seq<IndexEntry>, offset: nat, rows: seq<Row>)
  {
    file == FileOf(rows) && index == IndexOf(rows, 0) && offset == |file|
  }

  lemma CoversAll(file: seq<Byte>, index: seq<IndexEntry>, offset: nat, rows: seq<Row>)
    requires Covers(file, index, offset, rows)
    ensures file == FileOf(rows) && index == IndexOf(rows, 0)
  {
  }

  lemma CoversMore(file: seq<Byte>, index: seq<IndexEntry>, offset: nat, rows: seq<Row>, row: Row)
    requires Covers(file, index, offset, rows)
    ensures file + Record(row) == FileOf(rows + [row])
    ensures Covers(file + Record(row), index + [IndexEntry(row.key, offset)], offset + |Record(row)|, rows + [row])
  {
    FileOfAppend(rows, row, 0);
  }

  /** What lies at an indexed offset is that row's record. */
  lemma RecordAt(file: seq<Byte>, rows: seq<Row>, i: nat)
    requires Parse(file) == Ok(rows) && i < |rows|
    ensures |FileOf(rows[..i])| <= |file|
    ensures ReadRecord(file[|FileOf(rows[..i])|..]) == Ok((rows[i], |Record(rows[i])|))
  {
    FileParsed(file);
    IndexAt(rows, 0, i);
    assert rows[i..][0] == rows[i];
    ReadsRecord(rows[i], FileOf(rows[i..][1..]));
  }

  // ---- The operations ----

  ghost predicate DistinctKeys<V>(s: seq<KV<V>>)
  {
    forall i, j :: 0 <= i < j < |s| ==> s[i].key != s[j].key
  }

  lemma KeyOrderIsWeak<V(!new)>()
    ensures StrictWeakOrder((a: KV<V>, b: KV<V>) => Less(a.key, b.key))
  {
    var less := (a: KV<V>, b: KV<V>) => Less(a.key, b.key);
    forall a, b | less(a, b)
      ensures !less(b, a)
    {
      LessTrichotomy(a.key, b.key);
    }
    forall a, b, c | !less(b, a) && !less(c, b)
      ensures !less(c, a)
    {
      LessTrichotomy(c.key, b.key);
      LessTrichotomy(b.key, a.key);
      LessTrichotomy(c.key, a.key);
      if less(c, a) && Less(b.key, c.key) {
        LessTransitive(b.key, c.key, a.key);
      }
    }
  }

  /** Sorting entries of distinct keys yields the one listing of their map. */
  lemma SortedLists<V(!new)>(entries: seq<KV<V>>, rows: seq<KV<V>>)
    requires DistinctKeys(entries) && multiset(rows) == multiset(entries)
    requires Sorted(rows, (a: KV<V>, b: KV<V>) => Less(a.key, b.key))
    ensures Lists(rows, ToMap(entries))
  {
    forall i, j | 0 <= i < j < |rows|
      ensures Less(rows[i].key, rows[j].key)
    {
      if rows[i].key == rows[j].key {
        SameKeyTwice(entries, rows, i, j);
      }
      LessTrichotomy(rows[j].key, rows[i].key);
    }
    SameBindings(entries, rows);
  }

  lemma SameKeyTwice<V>(entries: seq<KV<V>>, rows: seq<KV<V>>, i: nat, j: nat)
    requires multiset(rows) == multiset(entries)
    requires i < j < |rows| && rows[i].key == rows[j].key
    ensures !DistinctKeys(entries)
  {
    assert rows[i] in multiset(entries) && rows[j] in multiset(entries);
    var a :| 0 <= a < |entries| && entries[a] == rows[i];
    if rows[i] != rows[j] {
      var b :| 0 <= b < |entries| && entries[b] == rows[j];
      assert a != b && entries[a].key == entries[b].key;
    } else {
      TwiceInSeq(rows, i, j);
      if DistinctKeys(entries) {
        OnceInSeq(entries, entries[a]);
      }
    }
  }

  lemma {:induction false} DistinctBinding<V>(s: seq<KV<V>>, i: nat)
    requires DistinctKeys(s) && i < |s|
    ensures s[i].key in ToMap(s) && ToMap(s)[s[i].key] == s[i].value
  {
    if i < |s| - 1 {
      assert s[..|s| - 1][i] == s[i];
      DistinctBinding(s[..|s| - 1], i);
    }
  }

  lemma SameBindings<V>(s: seq<KV<V>>, t: seq<KV<V>>)
    requires DistinctKeys(s) && DistinctKeys(t) && multiset(s) == multiset(t)
    ensures ToMap(s) == ToMap(t)
  {
    forall k | k in ToMap(s)
      ensures k in ToMap(t) && ToMap(t)[k] == ToMap(s)[k]
    {
      BindingMoves(s, t, k);
    }
    forall k | k in ToMap(t)
      ensures k in ToMap(s)
    {
      BindingMoves(t, s, k);
    }
  }

  lemma BindingMoves<V>(s: seq<KV<V>>, t: seq<KV<V>>, k: Key)
    requires DistinctKeys(s) && DistinctKeys(t) && multiset(s) == multiset(t) && k in ToMap(s)
    ensures k in ToMap(t) && ToMap(t)[k] == ToMap(s)[k]
  {
    var i := KeyAt(s, k);
    assert s[i] in multiset(t);
    var j :| 0 <= j < |t| && t[j] == s[i];
    DistinctBinding(t, j);
  }

  method WriteRecord(e: Row) returns (written: seq<Byte>)
    ensures written == Record(e)
  {
    var valueLen := |e.value.value|;
    if e.value.tombstone {
      valueLen := TOMBSTONE_MARKER;
    }
    var header := PutUint32(|e.key|) + PutUint32(valueLen);
    written := header + e.key;
    if !e.value.tombstone {
      written := written + e.value.value;
    }
  }

  /** Sorts the entries and writes them out, indexing each as it goes. */
  method WriteSSTable(number: nat, entries: seq<Row>) returns (sst: SSTable, file: seq<Byte>)
    requires DistinctKeys(entries)
    ensures multiset(Listing(ToMap(entries))) == multiset(entries)
    ensures file == FileOf(Listing(ToMap(entries))) && sst == SSTable(number, IndexOf(Listing(ToMap(entries)), 0))
  {
    KeyOrderIsWeak<Cell>();
    var sorted := SortSlice(entries, (a: Row, b: Row) => Less(a.key, b.key));
    SortedLists(entries, sorted);
    ListingUnique(sorted, Listing(ToMap(entries)), ToMap(entries));
    var index: seq<IndexEntry>, offset: nat := [], 0;
    file := [];
    hide Listing;
    hide FileOf;
    hide IndexOf;
    hide Lists;
    hide Sorted;
    hide Record;
    EmptyFile();
    assert sorted[..0] == [];
    assert Covers(file, index, offset, []);
    hide Covers;
    hide DistinctKeys;
    hide ToMap;
    for i := 0 to |sorted|
      invariant Covers(file, index, offset, sorted[..i])
    {
      var e := sorted[i];
      CoversMore(file, index, offset, sorted[..i], e);
      index := index + [IndexEntry(e.key, offset)];
      var written := WriteRecord(e);
      file := file + written;
      offset := offset + |written|;
      assert sorted[..i + 1] == sorted[..i] + [e];
    }
    assert sorted[..|sorted|] == sorted;
    assert file == FileOf(sorted) && index == IndexOf(sorted, 0) by { CoversAll(file, index, offset, sorted); }
    sst := SSTable(number, index);
  }

  lemma NothingLeft(done: seq<Row>)
    ensures Prepend(done, Parse([])) == Ok(done)
  {
    PrependToNothing<Row, ReadError>(done);
  }

  /** Reading one more record off the rest `r` of a file of which `done` has been read. */
  lemma ParseStep(done: seq<Row>, r: seq<Byte>)
    requires r != []
    ensures ReadRecord(r).Err? ==> Prepend(done, Parse(r)) == Err(ReadRecord(r).error)
    ensures ReadRecord(r).Ok? ==>
      && |Record(ReadRecord(r).value.0)| == ReadRecord(r).value.1 <= |r|
      && Prepend(done, Parse(r)) == Prepend(done + [ReadRecord(r).value.0], Parse(r[ReadRecord(r).value.1..]))
  {
    if ReadRecord(r).Ok? {
      RecordRead(r);
      var (row, n) := ReadRecord(r).value;
      if Parse(r[n..]).Ok? {
        var more := Parse(r[n..]).value;
        assert done + ([row] + more) == (done + [row]) + more;
      }
    }
  }

  /** Reads a record's key and skips its value: the key, and how many bytes the record takes. */
  method SkipRecord(rest: seq<Byte>) returns (r: Result<(Key, nat), ReadError>)
    ensures r.Ok? <==> ReadRecord(rest).Ok?
    ensures r.Ok? ==> r.value.0 == ReadRecord(rest).value.0.key && r.value.1 == ReadRecord(rest).value.1
    ensures r.Err? ==> ReadRecord(rest) == Err(r.error)
  {
    hide Uint32;
    if |rest| < HEADER {
      return Err(UnexpectedEOF);
    }
    var keyLen, valueLen := Uint32(rest[0..4]), Uint32(rest[4..8]);
    if |rest| < HEADER + keyLen {
      return Err(UnexpectedEOF);
    }
    var key := rest[HEADER..HEADER + keyLen];
    var recordLen := HEADER + |key|;
    if valueLen != TOMBSTONE_MARKER {
      if |rest| < HEADER + keyLen + valueLen {
        return Err(UnexpectedEOF);
      }
      recordLen := recordLen + valueLen;
    }
    return Ok((key, recordLen));
  }

  /** Rebuilds the index by scanning the file once; a torn record is an error. */
  method OpenSSTable(number: nat, file: seq<Byte>) returns (r: Result<SSTable, ReadError>)
    ensures r == match Parse(file) case Ok(rows) => Ok(SSTable(number, IndexOf(rows, 0))) case Err(e) => Err(e)
  {
    var index: seq<IndexEntry>, offset: nat, rest := [], 0, file;
    ghost var done: seq<Row> := [];
    PrependNothing(Parse(file));
    EmptyFile();
    hide Parse;
    hide FileOf;
    hide IndexOf;
    hide Prepend;
    hide Record;
    hide ReadRecord;
    assert Covers(FileOf(done), index, offset, done);
    hide Covers;
    while rest != []
      invariant Covers(FileOf(done), index, offset, done)
      invariant Parse(file) == Prepend(done, Parse(rest))
      decreases |rest|
    {
      ParseStep(done, rest);
      var skipped := SkipRecord(rest);
      if skipped.Err? {
        return Err(skipped.error);
      }
      var (key, recordLen) := skipped.value;
      ghost var row := ReadRecord(rest).value.0;
      CoversMore(FileOf(done), index, offset, done, row);
      index := index + [IndexEntry(key, offset)];
      offset := offset + recordLen;
      rest := rest[recordLen..];
      done := done + [row];
    }
    NothingLeft(done);
    return Ok(SSTable(number, index));
  }

  /** Reads every record back out, in file order. */
  method Entries(file: seq<Byte>) returns (r: Result<seq<Row>, ReadError>)
    ensures r == Parse(file)
  {
    var entries: seq<Row>, rest := [], file;
    PrependNothing(Parse(file));
    hide Parse;
    hide Uint32;
    while rest != []
      invariant Parse(file) == Prepend(entries, Parse(rest))
      decreases |rest|
    {
      ParseStep(entries, rest);
      if |rest| < HEADER {
        return Err(UnexpectedEOF);
      }
      var keyLen, valueLen := Uint32(rest[0..4]), Uint32(rest[4..8]);
      if |rest| < HEADER + keyLen {
        return Err(UnexpectedEOF);
      }
      var key := rest[HEADER..HEADER + keyLen];
      if valueLen == TOMBSTONE_MARKER {
        entries, rest := entries + [KV(key, Cell([], true))], rest[HEADER + keyLen..];
        continue;
      }
      if |rest| < HEADER + keyLen + valueLen {
        return Err(UnexpectedEOF);
      }
      var value := rest[HEADER + keyLen..HEADER + keyLen + valueLen];
      entries, rest := entries + [KV(key, Cell(value, false))], rest[HEADER + keyLen + valueLen..];
    }
    NothingLeft(entries);
    return Ok(entries);
  }

  /** `sort.Search` for the first index entry not below `key`. */
  method SearchIndex(index: seq<IndexEntry>, key: Key, ghost rows: seq<Row>) returns (p: nat)
    requires Ascending(rows) && index == IndexOf(rows, 0)
    ensures Splits(rows, p, key)
  {
    var lo, hi := 0, |index|;
    while lo < hi
      invariant 0 <= lo <= hi <= |index|
      invariant lo > 0 ==> Less(rows[lo - 1].key, key)
      invariant hi < |rows| ==> !Less(rows[hi].key, key)
    {
      var mid := (lo + hi) / 2;
      IndexAt(rows, 0, mid);
      if !Less(index[mid].key, key) {
        hi := mid;
      } else {
        lo := mid + 1;
      }
    }
    p := lo;
    SplitsFrom(rows, p, key);
  }

  /** Finds the key in the index, then reads its one record straight off the file. */
  method Get(file: seq<Byte>, index: seq<IndexEntry>, key: Key, ghost rows: seq<Row>)
    returns (r: Result<Lookup, ReadError>)
    requires Parse(file) == Ok(rows) && Ascending(rows) && index == IndexOf(rows, 0)
    ensures r == Ok(LookUp(ToMap(rows), key))
  {
    hide Uint32;
    hide PutUint32;
    hide IndexOf;
    hide FileOf;
    hide Parse;
    hide ToMap;
    var i := SearchIndex(index, key, rows);
    SplitFinds(rows, i, key);
    if i >= |index| {
      return Ok(Absent);
    }
    IndexAt(rows, 0, i);
    if index[i].key != key {
      return Ok(Absent);
    }
    RecordAt(file, rows, i);
    var rest := file[index[i].offset..];
    if |rest| < HEADER {
      return Err(UnexpectedEOF);
    }
    var keyLen, valueLen := Uint32(rest[0..4]), Uint32(rest[4..8]);
    if valueLen == TOMBSTONE_MARKER {
      return Ok(Present(Cell([], true)));
    }
    if |rest| < HEADER + keyLen + valueLen {
      return Err(UnexpectedEOF);
    }
    return Ok(Present(Cell(rest[HEADER + keyLen..HEADER + keyLen + valueLen], false)));
  }
}
