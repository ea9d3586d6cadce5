/** The write-ahead log: its record codec, appending and replay (api/queel/wal.go). */
module WriteAheadLog {
  import opened Wrappers
  import opened Bytes
  import opened Binary
  import opened SkipList

  const HEADER := 9

  datatype ReplayError = UnexpectedEOF

  /** One logged write: a key and the cell it was given. */
  type Op = Row

  function Record(op: Op): seq<Byte>
  {
    PutUint32(|op.key|) + PutUint32(|op.value.value|) + [if op.value.tombstone then 1 else 0]
    + op.key + op.value.value
  }

  /** One record read off the front of the log, with how many bytes it took. */
  function ReadRecord(b: seq<Byte>): Result<(Op, nat), ReplayError>
  {
    if |b| < HEADER then Err(UnexpectedEOF) else
    var keyLen, valueLen := Uint32(b[0..4]), Uint32(b[4..8]);
    if |b| < HEADER + keyLen + valueLen then Err(UnexpectedEOF)
    else Ok((KV(b[HEADER..HEADER + keyLen], Cell(b[HEADER + keyLen..HEADER + keyLen + valueLen], b[8] == 1)),
             HEADER + keyLen + valueLen))
  }

  function Parse(log: seq<Byte>): Result<seq<Op>, ReplayError>
    decreases |log|
  {
    if log == [] then Ok([]) else
    match ReadRecord(log)
    case Err(e) => Err(e)
    case Ok((op, n)) =>
      match Parse(log[n..])
      case Err(e) => Err(e)
      case Ok(ops) => Ok([op] + ops)
  }

  /** The writes the log can represent: neither length is truncated. */
  predicate Loggable(op: Op)
  {
    |op.key| < UINT32 && |op.value.value| < UINT32
  }

  lemma ReadsRecord(op: Op, rest: seq<Byte>)
    requires Loggable(op)
    ensures ReadRecord(Record(op) + rest) == Ok((op, |Record(op)|))
  {
    hide PutUint32;
    hide Uint32;
    ReadBack(|op.key|);
    ReadBack(|op.value.value|);
    Fields(PutUint32(|op.key|), PutUint32(|op.value.value|), if op.value.tombstone then 1 else 0,
           op.key, op.value.value, rest);
  }

  lemma Fields(a: seq<Byte>, b: seq<Byte>, flag: Byte, key: seq<Byte>, value: seq<Byte>, rest: seq<Byte>)
    requires |a| == |b| == 4
    ensures var s := (a + b + [flag] + key + value) + rest;
            && s[0..4] == a && s[4..8] == b && s[8] == flag && s[9..9 + |key|] == key
            && s[9 + |key|..9 + |key| + |value|] == value
  {
  }

  /** Bytes that follow a complete record do not change how it reads. */
  lemma RecordFits(b: seq<Byte>, more: seq<Byte>)
    requires ReadRecord(b).Ok?
    ensures 0 < ReadRecord(b).value.1 <= |b|
    ensures ReadRecord(b + more) == ReadRecord(b)
  {
    var keyLen, valueLen := Uint32(b[0..4]), Uint32(b[4..8]);
    assert (b + more)[0..4] == b[0..4] && (b + more)[4..8] == b[4..8] && (b + more)[8] == b[8];
    assert (b + more)[9..9 + keyLen] == b[9..9 + keyLen];
    assert (b + more)[9 + keyLen..9 + keyLen + valueLen] == b[9 + keyLen..9 + keyLen + valueLen];
  }

  /** Reading a log is reading its first record, then the rest. */
  lemma ParseFirst(log: seq<Byte>)
    requires log != []
    ensures Parse(log).Ok? <==> ReadRecord(log).Ok? && Parse(log[ReadRecord(log).value.1..]).Ok?
    ensures Parse(log).Ok? ==>
      Parse(log).value == [ReadRecord(log).value.0] + Parse(log[ReadRecord(log).value.1..]).value
  {
    if ReadRecord(log).Ok? {
      RecordFits(log, []);
    }
  }

  lemma ParseOne(op: Op)
    requires Loggable(op)
    ensures Parse(Record(op)) == Ok([op])
  {
    var record := Record(op);
    ReadsRecord(op, []);
    assert record + [] == record;
    ParseFirst(record);
    assert record[|record|..] == [];
    assert [op] + [] == [op];
  }

  lemma DropOfSum<T>(a: seq<T>, b: seq<T>, n: nat)
    requires n <= |a|
    ensures (a + b)[n..] == a[n..] + b
  {
  }

  lemma SumsAssociate<T>(a: seq<T>, b: seq<T>, c: seq<T>)
    ensures a + (b + c) == (a + b) + c
  {
  }

  lemma ParseOntoEmpty(op: Op)
    requires Loggable(op)
    ensures Parse([] + Record(op)) == Ok([] + [op])
  {
    ParseOne(op);
    assert [] + Record(op) == Record(op) && [] + [op] == [op];
  }

  /** Replaying a log to which one more write was appended replays that write last. */
  lemma {:induction false} ParseAppended(log: seq<Byte>, op: Op)
    requires Parse(log).Ok? && Loggable(op)
    ensures Parse(log + Record(op)) == Ok(Parse(log).value + [op])
    decreases |log|
  {
    var record := Record(op);
    if log == [] {
      ParseOntoEmpty(op);
    } else {
      ParseFirst(log);
      ParseFirst(log + record);
      hide Parse;
      hide Record;
      var n := ReadRecord(log).value.1;
      RecordFits(log, record);
      hide ReadRecord;
      ParseAppended(log[n..], op);
      DropOfSum(log, record, n);
      SumsAssociate([ReadRecord(log).value.0], Parse(log[n..]).value, [op]);
    }
  }

  /** A record that is cut short does not read. */
  lemma TornRecord(op: Op, n: nat)
    requires Loggable(op) && n < |Record(op)|
    ensures ReadRecord(Record(op)[..n]).Err?
  {
    var record := Record(op);
    assert record[..n] + record[n..] == record == record + [];
    ReadsRecord(op, []);
    hide ReadRecord;
    hide Record;
    if ReadRecord(record[..n]).Ok? {
      RecordFits(record[..n], record[n..]);
    }
  }

  lemma {:induction false} TornLog(log: seq<Byte>, torn: seq<Byte>)
    requires Parse(log).Ok? && torn != [] && ReadRecord(torn).Err?
    ensures Parse(log + torn).Err?
    decreases |log|
  {
    ParseFirst(log + torn);
    if log == [] {
      assert log + torn == torn;
    } else {
      ParseFirst(log);
      hide Parse;
      var n := ReadRecord(log).value.1;
      RecordFits(log, torn);
      hide ReadRecord;
      TornLog(log[n..], torn);
      DropOfSum(log, torn, n);
    }
  }

  /** A log whose last append was cut short replays exactly if nothing of the record, or all of it, got there. */
  lemma TornAppendExactly(log: seq<Byte>, op: Op, n: nat)
    requires Parse(log).Ok? && Loggable(op) && n <= |Record(op)|
    ensures Parse(log + Record(op)[..n]).Ok? <==> n == 0 || n == |Record(op)|
  {
    hide Parse;
    hide ReadRecord;
    hide Record;
    if n == 0 {
      assert log + Record(op)[..n] == log;
    } else if n == |Record(op)| {
      assert Record(op)[..n] == Record(op);
      ParseAppended(log, op);
    } else {
      TornRecord(op, n);
      TornLog(log, Record(op)[..n]);
    }
  }

  /** Appends one record: header, key, value. */
  method Append(log: seq<Byte>, key: Key, value: seq<Byte>, tombstone: bool) returns (log': seq<Byte>)
    ensures log' == log + Record(KV(key, Cell(value, tombstone)))
    ensures Parse(log).Ok? && Loggable(KV(key, Cell(value, tombstone))) ==>
      Parse(log') == Ok(Parse(log).value + [KV(key, Cell(value, tombstone))])
  {
    var tomb: Byte := 0;
    if tombstone {
      tomb := 1;
    }
    var header := PutUint32(|key|) + PutUint32(|value|) + [tomb];
    log' := log + (header + key + value);
    if Parse(log).Ok? && Loggable(KV(key, Cell(value, tombstone))) {
      ParseAppended(log, KV(key, Cell(value, tombstone)));
    }
  }

  lemma NothingLeft(done: seq<Op>)
    ensures Prepend(done, Parse([])) == Ok(done)
  {
    PrependToNothing<Op, ReplayError>(done);
  }

  lemma ParseStep(done: seq<Op>, r: seq<Byte>)
    requires r != []
    ensures ReadRecord(r).Err? ==> Prepend(done, Parse(r)) == Err(ReadRecord(r).error)
    ensures ReadRecord(r).Ok? ==>
      && ReadRecord(r).value.1 <= |r|
      && Prepend(done, Parse(r)) == Prepend(done + [ReadRecord(r).value.0], Parse(r[ReadRecord(r).value.1..]))
  {
    if ReadRecord(r).Ok? {
      RecordFits(r, []);
      var (op, n) := ReadRecord(r).value;
      if Parse(r[n..]).Ok? {
        var more := Parse(r[n..]).value;
        assert done + ([op] + more) == (done + [op]) + more;
      }
    }
  }

  /** The table after the writes `ops`, the last one to a key deciding. */
  function ApplyAll(m: map<Key, Cell>, ops: seq<Op>): map<Key, Cell>
  {
    if ops == [] then m else ApplyAll(m, ops[..|ops| - 1])[ops[|ops| - 1].key := ops[|ops| - 1].value]
  }

  lemma ApplyNone(m: map<Key, Cell>)
    ensures ApplyAll(m, []) == m
  {
  }

  lemma ApplyOne(m: map<Key, Cell>, ops: seq<Op>, op: Op)
    ensures ApplyAll(m, ops + [op]) == ApplyAll(m, ops)[op.key := op.value]
  {
    assert (ops + [op])[..|ops|] == ops;
  }

  /** Reads every record in write order into the memtable; a torn record fails the replay. */
  method ReplayWAL(log: seq<Byte>, memtable: Memtable) returns (r: Result<(), ReplayError>)
    requires memtable.Valid()
    modifies memtable, memtable.place.Keys
    ensures memtable.Valid() && fresh(memtable.place.Keys - old(memtable.place.Keys))
    ensures r.Ok? <==> Parse(log).Ok?
    ensures r.Ok? ==> memtable.Contents() == ApplyAll(old(memtable.Contents()), Parse(log).value)
  {
    var rest := log;
    ghost var done: seq<Op> := [];
    PrependNothing(Parse(log));
    hide Parse;
    hide Uint32;
    hide Prepend;
    hide ApplyAll;
    ApplyNone(memtable.Contents());
    while rest != []
      invariant Parse(log) == Prepend(done, Parse(rest))
      invariant memtable.Valid() && fresh(memtable.place.Keys - old(memtable.place.Keys))
      invariant memtable.Contents() == ApplyAll(old(memtable.Contents()), done)
      decreases |rest|
    {
      ParseStep(done, rest);
      if |rest| < HEADER {
        return Err(UnexpectedEOF);
      }
      var keyLen, valueLen := Uint32(rest[0..4]), Uint32(rest[4..8]);
      var tombstone := rest[8] == 1;
      if |rest| < HEADER + keyLen {
        return Err(UnexpectedEOF);
      }
      var key := rest[HEADER..HEADER + keyLen];
      if |rest| < HEADER + keyLen + valueLen {
        return Err(UnexpectedEOF);
      }
      var value := rest[HEADER + keyLen..HEADER + keyLen + valueLen];
      memtable.Put(key, value, tombstone);
      ApplyOne(old(memtable.Contents()), done, KV(key, Cell(value, tombstone)));
      rest, done := rest[HEADER + keyLen + valueLen..], done + [KV(key, Cell(value, tombstone))];
    }
    NothingLeft(done);
    return Ok(());
  }
}
