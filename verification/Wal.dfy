/**
 * The write-ahead log: records appended to a byte file, transactional batches
 * closed by a commit marker, and the replay that recovery runs over whatever
 * bytes survived.
 */
module Wal {
  import opened Common
  import opened Bytes

  const HEADER: nat := 21  // magic, operation, key length, value length, checksum
  const PUT: byte := 1
  const DELETE: byte := 2
  const TX_PUT: byte := 3
  const TX_DELETE: byte := 4
  const TX_COMMIT: byte := 5

  /** "MYWAL01" and a zero byte. */
  const MAGIC: bytes := [0x4D, 0x59, 0x57, 0x41, 0x4C, 0x30, 0x31, 0x00]

  datatype BatchOp = BatchOp(key: bytes, value: bytes, isDelete: bool)

  datatype Record = Record(op: byte, key: bytes, value: bytes)

  /** One call of the function that replay is given. */
  datatype Call = Call(op: byte, key: bytes, value: bytes)

  datatype Failure = BadMagic | BadLength | BadChecksum | UnknownOperation | BadTransactionKey | BadCommit

  datatype Outcome = Outcome(calls: seq<Call>, failure: Option<Failure>)

  /** Operations of batches whose commit marker has not been read yet, by transaction id. */
  type Pending = map<u64, seq<BatchOp>>

  datatype State = State(pending: Pending, calls: seq<Call>)

  const START: State := State(map[], [])

  function Waiting(pending: Pending, id: u64): seq<BatchOp>
  {
    if id in pending then pending[id] else []
  }

  function CallOf(op: BatchOp): Call
  {
    Call(if op.isDelete then DELETE else PUT, op.key, op.value)
  }

  function CallsOf(ops: seq<BatchOp>): seq<Call>
  {
    seq(|ops|, i requires 0 <= i < |ops| => CallOf(ops[i]))
  }

  // ------------------------------------------------------------ the format

  predicate Fits(r: Record)
  {
    |r.key| + |r.value| < 0x1_0000_0000
  }

  /** The bytes of one record, under a checksum function. */
  function RecordBytes(crc: bytes -> u32, r: Record): (s: bytes)
    requires Fits(r)
    ensures |s| == HEADER + |r.key| + |r.value|
  {
    MAGIC + [r.op] + Le32(|r.key|) + Le32(|r.value|) + Le32(crc([r.op] + r.key + r.value)) + r.key + r.value
  }

  function LogBytes(crc: bytes -> u32, rs: seq<Record>): bytes
    requires forall i :: 0 <= i < |rs| ==> Fits(rs[i])
  {
    if rs == [] then [] else RecordBytes(crc, rs[0]) + LogBytes(crc, rs[1..])
  }

  /** What replay does to one whole, undamaged record. */
  function Step(st: State, r: Record): State
    requires WellFormed(r)
  {
    if r.op == TX_PUT || r.op == TX_DELETE then
      var id := Get64(r.key[..8]);
      st.(pending := st.pending[id := Waiting(st.pending, id) + [BatchOp(r.key[8..], r.value, r.op == TX_DELETE)]])
    else if r.op == TX_COMMIT then
      var id := Get64(r.key[..8]);
      State(st.pending - {id}, st.calls + CallsOf(Waiting(st.pending, id)))
    else
      st.(calls := st.calls + [Call(r.op, r.key, r.value)])
  }

  /** The records replay accepts: known operations, and keys that hold a transaction id where one is due. */
  predicate WellFormed(r: Record)
  {
    && PUT <= r.op <= TX_COMMIT
    && (r.op == TX_PUT || r.op == TX_DELETE ==> |r.key| >= 8)
    && (r.op == TX_COMMIT ==> |r.key| == 8)
  }

  function Steps(st: State, rs: seq<Record>): State
    requires forall i :: 0 <= i < |rs| ==> WellFormed(rs[i])
    decreases |rs|
  {
    if rs == [] then st else Steps(Step(st, rs[0]), rs[1..])
  }

  /** What stands at the front of the remaining bytes. */
  datatype Front = Nothing | Damaged(failure: Failure) | Whole(record: Record)

  function ReadFront(crc: bytes -> u32, log: bytes): (f: Front)
    ensures f.Whole? ==> HEADER + |f.record.key| + |f.record.value| <= |log|
  {
    if |log| < HEADER then Nothing
    else if log[..8] != MAGIC then Damaged(BadMagic)
    else
      var keyLen, valLen := Get32(log[9..13]), Get32(log[13..17]);
      var end := HEADER + keyLen + valLen;
      if end > |log| then Damaged(BadLength)
      else if crc([log[8]] + log[HEADER..end]) != Get32(log[17..21]) then Damaged(BadChecksum)
      else Whole(Record(log[8], log[HEADER..HEADER + keyLen], log[HEADER + keyLen..end]))
  }

  /** Replay of arbitrary bytes from a given state. */
  function Scan(crc: bytes -> u32, log: bytes, st: State): Outcome
    decreases |log|
  {
    match ReadFront(crc, log)
    case Nothing => Outcome(st.calls, None)
    case Damaged(failure) => Outcome(st.calls, Some(failure))
    case Whole(r) =>
      match Defect(r)
      case Some(failure) => Outcome(st.calls, Some(failure))
      case None => Scan(crc, log[HEADER + |r.key| + |r.value|..], Step(st, r))
  }

  /** What is wrong with a record that is whole and whose checksum is right. */
  function Defect(r: Record): (d: Option<Failure>)
    ensures d.None? <==> WellFormed(r)
  {
    if !(PUT <= r.op <= TX_COMMIT) then Some(UnknownOperation)
    else if (r.op == TX_PUT || r.op == TX_DELETE) && |r.key| < 8 then Some(BadTransactionKey)
    else if r.op == TX_COMMIT && |r.key| != 8 then Some(BadCommit)
    else None
  }

  // ----------------------------------------------------------- the log file

  class LogFile {
    var file: bytes
    const crc: bytes -> u32

    constructor (crc: bytes -> u32)
      ensures this.crc == crc && file == []
    {
      this.crc, file := crc, [];
    }

    /** Append one record; refused, with nothing written, when it is 4 GiB or more. */
    method Append(op: byte, key: bytes, value: bytes) returns (ok: bool)
      modifies this
      ensures ok <==> Fits(Record(op, key, value))
      ensures file == old(file) + if ok then RecordBytes(crc, Record(op, key, value)) else []
    {
      if |key| + |value| > 0xFFFF_FFFF {
        return false;
      }
      var payload := [op] + key + value;
      var record := MAGIC + [op] + Le32(|key|) + Le32(|value|) + Le32(crc(payload)) + key + value;
      file := file + record;
      return true;
    }

    /** Append a batch and its commit marker; stops at the first operation that is too large. */
    method AppendTransaction(id: u64, ops: seq<BatchOp>) returns (ok: bool)
      modifies this
      ensures ok <==> forall i :: 0 <= i < |ops| ==> Fits(TxRecord(id, ops[i]))
      ensures Logged(ItemOf(id, ops))
      ensures file == old(file) + ItemBytes(crc, ItemOf(id, ops))
    {
      hide RecordBytes, LogBytes, TxRecords, Fits, FittingPrefix, Le64;
      var i := 0;
      TxRecordsEmpty(crc, id);
      while i < |ops|
        invariant i <= |ops| && i <= FittingPrefix(id, ops)
        invariant forall j :: 0 <= j < |TxRecords(id, ops[..i])| ==> Fits(TxRecords(id, ops[..i])[j])
        invariant file == old(file) + LogBytes(crc, TxRecords(id, ops[..i]))
      {
        var key := Le64(id) + ops[i].key;
        var kind := if ops[i].isDelete then TX_DELETE else TX_PUT;
        var written := Append(kind, key, ops[i].value);
        TxItem(id, ops, i);
        if !written {
          return false;
        }
        LogBytesPush(crc, TxRecords(id, ops[..i]), TxRecord(id, ops[i]));
        i := i + 1;
      }
      assert ops[..i] == ops;
      ok := Append(TX_COMMIT, Le64(id), []);
      CommitFits(id);
      LogBytesPush(crc, TxRecords(id, ops), CommitRecord(id));
    }

    method Clear()
      modifies this
      ensures file == []
    {
      file := [];
    }

    /** Read the file from the start and call `apply` for what it commits to. */
    method Replay() returns (out: Outcome)
      ensures out == Scan(crc, file, START)
    {
      hide ReadFront, Step, Defect;
      var pos := 0;
      var st := START;
      assert file[0..] == file;
      while true
        invariant 0 <= pos <= |file|
        invariant Scan(crc, file, START) == Scan(crc, file[pos..], st)
        decreases |file| - pos
      {
        var front := ReadRecord(pos);
        if front.Nothing? {
          return Outcome(st.calls, None);
        }
        if front.Damaged? {
          return Outcome(st.calls, Some(front.failure));
        }
        ghost var rest := file[pos..];
        pos := pos + HEADER + |front.record.key| + |front.record.value|;
        assert file[pos..] == rest[HEADER + |front.record.key| + |front.record.value|..];
        var defect, next := Handle(front.record, st);
        if defect.Some? {
          return Outcome(st.calls, defect);
        }
        st := next;
      }
    }

    /** Read header and body of the record at `pos`, checking magic, length and checksum. */
    method ReadRecord(pos: nat) returns (front: Front)
      requires pos <= |file|
      ensures front == ReadFront(crc, file[pos..])
      ensures front.Whole? ==> pos + HEADER + |front.record.key| + |front.record.value| <= |file|
    {
      hide Get32;
      if |file| - pos < HEADER {
        return Nothing;
      }
      ghost var rest := file[pos..];
      var h := file[pos..pos + HEADER];
      HeaderSlices(rest, h);
      if h[..8] != MAGIC {
        return Damaged(BadMagic);
      }
      var remaining := |file| - pos - HEADER;
      var keyLen, valLen := Get32(h[9..13]), Get32(h[13..17]);
      if keyLen + valLen > remaining {
        return Damaged(BadLength);
      }
      var body := file[pos + HEADER..pos + HEADER + keyLen + valLen];
      assert body == rest[HEADER..HEADER + keyLen + valLen];
      if crc([h[8]] + body) != Get32(h[17..21]) {
        return Damaged(BadChecksum);
      }
      assert body[..keyLen] == rest[HEADER..HEADER + keyLen];
      assert body[keyLen..] == rest[HEADER + keyLen..HEADER + keyLen + valLen];
      return Whole(Record(h[8], body[..keyLen], body[keyLen..]));
    }
  }

  /** One undamaged record: queue it, release a batch, or apply it. */
  method Handle(r: Record, st: State) returns (defect: Option<Failure>, next: State)
    ensures defect == Defect(r)
    ensures next == if defect.None? then Step(st, r) else st
  {
    hide Get64;
    var pending, calls := st.pending, st.calls;
    if r.op != PUT && r.op != DELETE && r.op != TX_PUT && r.op != TX_DELETE && r.op != TX_COMMIT {
      return Some(UnknownOperation), st;
    }
    if r.op == TX_PUT || r.op == TX_DELETE {
      if |r.key| < 8 {
        return Some(BadTransactionKey), st;
      }
      var id := Get64(r.key[..8]);
      pending := pending[id := Waiting(pending, id) + [BatchOp(r.key[8..], r.value, r.op == TX_DELETE)]];
    } else if r.op == TX_COMMIT {
      if |r.key| != 8 {
        return Some(BadCommit), st;
      }
      var id := Get64(r.key[..8]);
      var ops := Waiting(pending, id);
      for i := 0 to |ops|
        invariant calls == st.calls + CallsOf(ops[..i])
      {
        assert CallsOf(ops[..i + 1]) == CallsOf(ops[..i]) + [CallOf(ops[i])];
        calls := calls + [Call(if ops[i].isDelete then DELETE else PUT, ops[i].key, ops[i].value)];
      }
      assert ops[..|ops|] == ops;
      pending := pending - {id};
    } else {
      calls := calls + [Call(r.op, r.key, r.value)];
    }
    return None, State(pending, calls);
  }

  lemma HeaderSlices(rest: bytes, h: bytes)
    requires |rest| >= HEADER && h == rest[..HEADER]
    ensures h[..8] == rest[..8] && h[8] == rest[8] && h[9..13] == rest[9..13]
    ensures h[13..17] == rest[13..17] && h[17..21] == rest[17..21]
  {
  }

  // ---------------------------------------------------------------- batches

  /** The record of one batch operation: its key carries the transaction id in front. */
  function TxRecord(id: u64, op: BatchOp): Record
  {
    Record(if op.isDelete then TX_DELETE else TX_PUT, Le64(id) + op.key, op.value)
  }

  function TxRecords(id: u64, ops: seq<BatchOp>): seq<Record>
  {
    seq(|ops|, i requires 0 <= i < |ops| => TxRecord(id, ops[i]))
  }

  function CommitRecord(id: u64): Record
  {
    Record(TX_COMMIT, Le64(id), [])
  }

  /** How many operations of a batch come before the first one too large to log. */
  function FittingPrefix(id: u64, ops: seq<BatchOp>): (n: nat)
    ensures n <= |ops|
    ensures forall i :: 0 <= i < n ==> Fits(TxRecord(id, ops[i]))
    ensures n < |ops| ==> !Fits(TxRecord(id, ops[n]))
  {
    if ops == [] || !Fits(TxRecord(id, ops[0])) then 0 else 1 + FittingPrefix(id, ops[1..])
  }

  lemma TxRecordsEmpty(crc: bytes -> u32, id: u64)
    ensures TxRecords(id, []) == [] && LogBytes(crc, []) == []
  {
  }

  lemma CommitFits(id: u64)
    ensures Fits(CommitRecord(id))
  {
  }

  lemma {:induction false} TxItem(id: u64, ops: seq<BatchOp>, i: nat)
    requires i < |ops| && i <= FittingPrefix(id, ops)
    ensures Fits(TxRecord(id, ops[i])) <==> i < FittingPrefix(id, ops)
    ensures TxRecords(id, ops[..i + 1]) == TxRecords(id, ops[..i]) + [TxRecord(id, ops[i])]
  {
  }

  lemma {:induction false} LogBytesPush(crc: bytes -> u32, rs: seq<Record>, r: Record)
    requires Fits(r) && forall i :: 0 <= i < |rs| ==> Fits(rs[i])
    ensures LogBytes(crc, rs + [r]) == LogBytes(crc, rs) + RecordBytes(crc, r)
  {
    LogBytesAppend(crc, rs, [r]);
    assert LogBytes(crc, [r]) == RecordBytes(crc, r) + LogBytes(crc, []) by { assert [r][1..] == []; }
  }

  lemma {:induction false} LogBytesAppend(crc: bytes -> u32, a: seq<Record>, b: seq<Record>)
    requires forall i :: 0 <= i < |a| ==> Fits(a[i])
    requires forall i :: 0 <= i < |b| ==> Fits(b[i])
    ensures LogBytes(crc, a + b) == LogBytes(crc, a) + LogBytes(crc, b)
  {
    hide RecordBytes;
    if a == [] {
      assert a + b == b;
    } else {
      LogBytesAppend(crc, a[1..], b);
      assert (a + b)[1..] == a[1..] + b;
    }
  }

  /**
   * What one writer call left in the log.  `Torn` is a batch without its commit
   * marker: an operation was too large to log, or the process died between two
   * records and a later process went on appending to the same file.
   */
  datatype Item =
    | Single(isDelete: bool, key: bytes, value: bytes)
    | Batch(id: u64, ops: seq<BatchOp>)
    | Torn(id: u64, ops: seq<BatchOp>)

  function RecordsOf(item: Item): seq<Record>
  {
    match item
    case Single(isDelete, key, value) => [Record(if isDelete then DELETE else PUT, key, value)]
    case Batch(id, ops) => TxRecords(id, ops) + [CommitRecord(id)]
    case Torn(id, ops) => TxRecords(id, ops)
  }

  /** What `AppendTransaction` leaves: the whole batch, or the operations before the first that is too large. */
  function ItemOf(id: u64, ops: seq<BatchOp>): Item
  {
    var n := FittingPrefix(id, ops);
    if n == |ops| then Batch(id, ops) else Torn(id, ops[..n])
  }

  predicate Logged(item: Item)
  {
    match item
    case Single(_, key, value) => |key| + |value| < 0x1_0000_0000
    case Batch(id, ops) => forall i :: 0 <= i < |ops| ==> Fits(TxRecord(id, ops[i]))
    case Torn(id, ops) => forall i :: 0 <= i < |ops| ==> Fits(TxRecord(id, ops[i]))
  }

  /** The bytes one writer call adds to the log. */
  function ItemBytes(crc: bytes -> u32, item: Item): bytes
    requires Logged(item)
  {
    LogBytes(crc, RecordsOf(item))
  }
}
