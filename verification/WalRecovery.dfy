/** What replay recovers from a log that was cut off at an arbitrary byte. */
module WalRecovery {
  import opened Common
  import opened Bytes
  import opened Wal

  // ---------------------------------------------------- one record at a time

  lemma {:induction false} RecordFields(crc: bytes -> u32, r: Record, rest: bytes)
    requires Fits(r)
    ensures var s := RecordBytes(crc, r) + rest;
            && s[..8] == MAGIC && s[8] == r.op
            && Get32(s[9..13]) == |r.key| && Get32(s[13..17]) == |r.value|
            && Get32(s[17..21]) == crc([r.op] + r.key + r.value)
            && s[HEADER..HEADER + |r.key|] == r.key
            && s[HEADER + |r.key|..HEADER + |r.key| + |r.value|] == r.value
            && s[HEADER + |r.key| + |r.value|..] == rest
  {
    hide Le32, Get32;
    var kl, vl, sum := Le32(|r.key|), Le32(|r.value|), Le32(crc([r.op] + r.key + r.value));
    RoundTrip32(|r.key|);
    RoundTrip32(|r.value|);
    RoundTrip32(crc([r.op] + r.key + r.value));
    var s := RecordBytes(crc, r) + rest;
    assert s == MAGIC + [r.op] + kl + vl + sum + r.key + r.value + rest;
    assert s[9..13] == kl && s[13..17] == vl && s[17..21] == sum;
  }

  /** A whole record is read back exactly and scanning goes on behind it. */
  lemma {:induction false} ScanRecord(crc: bytes -> u32, r: Record, rest: bytes, st: State)
    requires Fits(r) && WellFormed(r)
    ensures Scan(crc, RecordBytes(crc, r) + rest, st) == Scan(crc, rest, Step(st, r))
  {
    hide RecordBytes, Get32, Step, WellFormed;
    RecordFields(crc, r, rest);
    var s := RecordBytes(crc, r) + rest;
    var end := HEADER + |r.key| + |r.value|;
    assert s[HEADER..end] == r.key + r.value;
    assert [r.op] + (r.key + r.value) == [r.op] + r.key + r.value;
  }

  /** A record cut short changes nothing: silence inside the header, a length error inside the body. */
  lemma {:induction false} ScanTorn(crc: bytes -> u32, r: Record, n: nat, st: State)
    requires Fits(r) && n < HEADER + |r.key| + |r.value|
    ensures Scan(crc, RecordBytes(crc, r)[..n], st) == Outcome(st.calls, if n < HEADER then None else Some(BadLength))
  {
    hide RecordBytes, Get32;
    if n >= HEADER {
      RecordFields(crc, r, []);
      var s, cut := RecordBytes(crc, r) + [], RecordBytes(crc, r)[..n];
      assert cut[..8] == s[..8] && cut[9..13] == s[9..13] && cut[13..17] == s[13..17];
    }
  }

  // -------------------------------------------------------- many records

  function Size(r: Record): nat
  {
    HEADER + |r.key| + |r.value|
  }

  function LogSize(rs: seq<Record>): nat
  {
    if rs == [] then 0 else Size(rs[0]) + LogSize(rs[1..])
  }

  /** How many records lie wholly inside the first `n` bytes. */
  function WholeRecords(rs: seq<Record>, n: nat): (m: nat)
    ensures m <= |rs|
  {
    if rs == [] || n < Size(rs[0]) then 0 else 1 + WholeRecords(rs[1..], n - Size(rs[0]))
  }

  lemma {:induction false} WholeRecordsExact(rs: seq<Record>, n: nat)
    requires n <= LogSize(rs)
    ensures var m := WholeRecords(rs, n);
            LogSize(rs[..m]) <= n && (m < |rs| ==> n < LogSize(rs[..m + 1])) && (m == |rs| ==> n == LogSize(rs))
  {
    var m := WholeRecords(rs, n);
    if rs != [] && n >= Size(rs[0]) {
      WholeRecordsExact(rs[1..], n - Size(rs[0]));
      assert rs[..m][1..] == rs[1..][..m - 1];
      if m < |rs| { assert rs[..m + 1][1..] == rs[1..][..m]; }
    } else if rs != [] {
      assert rs[..1][1..] == [];
    }
  }

  lemma {:induction false} LogBytesSize(crc: bytes -> u32, rs: seq<Record>)
    requires forall i :: 0 <= i < |rs| ==> Fits(rs[i])
    ensures |LogBytes(crc, rs)| == LogSize(rs)
    decreases |rs|
  {
    if rs != [] { LogBytesSize(crc, rs[1..]); }
  }

  /** The cut is at a record boundary or inside the header of the next record. */
  predicate CleanCut(rs: seq<Record>, n: nat)
  {
    n < LogSize(rs[..WholeRecords(rs, n)]) + HEADER
  }

  /** Replay of a cut log is the records wholly before the cut, with an error exactly for a torn body. */
  lemma {:induction false} RecordTruncation(crc: bytes -> u32, rs: seq<Record>, n: nat, st: State)
    requires forall i :: 0 <= i < |rs| ==> Fits(rs[i]) && WellFormed(rs[i])
    requires n <= |LogBytes(crc, rs)|
    ensures Scan(crc, LogBytes(crc, rs)[..n], st) ==
            Outcome(Steps(st, rs[..WholeRecords(rs, n)]).calls, if CleanCut(rs, n) then None else Some(BadLength))
    decreases |rs|
  {
    hide RecordBytes, Scan, Step, Fits, WellFormed;
    LogBytesSize(crc, rs);
    if rs == [] {
      ScanNothing(crc, st);
      assert LogBytes(crc, rs)[..n] == [];
    } else {
      var first, rest := RecordBytes(crc, rs[0]), LogBytes(crc, rs[1..]);
      RecordLength(crc, rs[0]);
      if n < Size(rs[0]) {
        ScanTorn(crc, rs[0], n, st);
        assert (first + rest)[..n] == first[..n];
      } else {
        var m := WholeRecords(rs[1..], n - Size(rs[0]));
        assert (first + rest)[..n] == first + rest[..n - Size(rs[0])];
        ScanRecord(crc, rs[0], rest[..n - Size(rs[0])], st);
        RecordTruncation(crc, rs[1..], n - Size(rs[0]), Step(st, rs[0]));
        assert rs[..m + 1][1..] == rs[1..][..m];
      }
    }
  }

  lemma ScanNothing(crc: bytes -> u32, st: State)
    ensures Scan(crc, [], st) == Outcome(st.calls, None)
  {
  }

  lemma RecordLength(crc: bytes -> u32, r: Record)
    requires Fits(r)
    ensures |RecordBytes(crc, r)| == Size(r)
  {
  }

  // ------------------------------------- a log written on behind a torn record

  /** Scanning whole records in front of anything. */
  lemma {:induction false} ScanRecords(crc: bytes -> u32, rs: seq<Record>, rest: bytes, st: State)
    requires forall i :: 0 <= i < |rs| ==> Fits(rs[i]) && WellFormed(rs[i])
    ensures Scan(crc, LogBytes(crc, rs) + rest, st) == Scan(crc, rest, Steps(st, rs))
    decreases |rs|
  {
    hide RecordBytes, Scan, Step, Fits, WellFormed;
    if rs == [] {
      assert LogBytes(crc, rs) + rest == rest;
    } else {
      var first, others := RecordBytes(crc, rs[0]), LogBytes(crc, rs[1..]);
      assert LogBytes(crc, rs) + rest == first + (others + rest);
      ScanRecord(crc, rs[0], others + rest, st);
      ScanRecords(crc, rs[1..], rest, Step(st, rs[0]));
    }
  }

  lemma LogSizePush(rs: seq<Record>, m: nat)
    requires m < |rs|
    ensures LogSize(rs[..m + 1]) == LogSize(rs[..m]) + Size(rs[m])
  {
    assert rs[..m + 1] == rs[..m] + [rs[m]];
    LogSizeAppend(rs[..m], [rs[m]]);
    assert [rs[m]][1..] == [];
  }

  /** The bytes before a cut: the records wholly before it, and less than one more record. */
  lemma {:induction false} CutBytes(crc: bytes -> u32, rs: seq<Record>, n: nat)
    requires forall i :: 0 <= i < |rs| ==> Fits(rs[i])
    requires n <= |LogBytes(crc, rs)|
    ensures var m := WholeRecords(rs, n);
            var k := n - LogSize(rs[..m]);
            && 0 <= k && (m == |rs| ==> k == 0) && (m < |rs| ==> k < Size(rs[m]))
            && (k == 0 ==> LogBytes(crc, rs)[..n] == LogBytes(crc, rs[..m]))
            && (m < |rs| ==> LogBytes(crc, rs)[..n] == LogBytes(crc, rs[..m]) + RecordBytes(crc, rs[m])[..k])
  {
    hide RecordBytes, Fits, LogSize, WholeRecords;
    var m := WholeRecords(rs, n);
    LogBytesSize(crc, rs);
    LogBytesSize(crc, rs[..m]);
    WholeRecordsExact(rs, n);
    assert rs == rs[..m] + rs[m..];
    LogBytesAppend(crc, rs[..m], rs[m..]);
    if m < |rs| {
      LogSizePush(rs, m);
      assert rs[m..][0] == rs[m];
    } else {
      assert rs[..m] == rs;
    }
  }

  /**
   * A later process writes on behind a cut.  At a record boundary replay goes
   * on into the later records as if nothing had happened.  Otherwise it goes
   * through the whole records, and then meets the torn one with the later
   * bytes behind it.
   */
  lemma {:induction false} WrittenBehindCut(crc: bytes -> u32, rs: seq<Record>, n: nat, later: seq<Record>, st: State)
    requires forall i :: 0 <= i < |rs| ==> Fits(rs[i]) && WellFormed(rs[i])
    requires forall i :: 0 <= i < |later| ==> Fits(later[i]) && WellFormed(later[i])
    requires n <= |LogBytes(crc, rs)|
    ensures var m := WholeRecords(rs, n);
            var k := n - LogSize(rs[..m]);
            var log := LogBytes(crc, rs)[..n] + LogBytes(crc, later);
            && 0 <= k && (m == |rs| ==> k == 0) && (m < |rs| ==> k < Size(rs[m]))
            && (k == 0 ==> Scan(crc, log, st) == Outcome(Steps(st, rs[..m] + later).calls, None))
            && (k > 0 ==> Scan(crc, log, st) == Scan(crc, RecordBytes(crc, rs[m])[..k] + LogBytes(crc, later), Steps(st, rs[..m])))
  {
    hide RecordBytes, Scan, Step, Steps, Fits, WellFormed, LogBytes, WholeRecords, LogSize;
    CutBytes(crc, rs, n);
    var m := WholeRecords(rs, n);
    var k := n - LogSize(rs[..m]);
    var more := LogBytes(crc, later);
    if k == 0 {
      assert LogBytes(crc, rs)[..n] + more == LogBytes(crc, rs[..m]) + (more + []);
      ScanRecords(crc, rs[..m], more + [], st);
      ScanRecords(crc, later, [], Steps(st, rs[..m]));
      ScanNothing(crc, Steps(Steps(st, rs[..m]), later));
      StepsAppend(st, rs[..m], later);
    } else {
      var torn := RecordBytes(crc, rs[m])[..k];
      assert LogBytes(crc, rs)[..n] + more == LogBytes(crc, rs[..m]) + (torn + more);
      ScanRecords(crc, rs[..m], torn + more, st);
    }
  }

  /** Behind a record torn in its first bytes everything written later is lost. */
  lemma {:induction false} TornMagicLosesTheRest(crc: bytes -> u32, r: Record, k: nat, later: seq<Record>, st: State)
    requires Fits(r) && 0 < k < |MAGIC| && later != [] && forall i :: 0 <= i < |later| ==> Fits(later[i])
    ensures Scan(crc, RecordBytes(crc, r)[..k] + LogBytes(crc, later), st) == Outcome(st.calls, Some(BadMagic))
  {
    var log := RecordBytes(crc, r)[..k] + LogBytes(crc, later);
    var first := RecordBytes(crc, later[0]);
    assert LogBytes(crc, later) == first + LogBytes(crc, later[1..]);
    assert RecordBytes(crc, r)[..8] == MAGIC && first[..8] == MAGIC;
    assert log[k] == first[0] == MAGIC[0];
    assert log[..8][k] == log[k];
    assert MAGIC[k] != MAGIC[0];
  }

  /**
   * Behind a record torn in its body, replay takes later bytes for the rest of
   * the body: it fails until there are enough of them, and then it fails
   * exactly when the checksum notices.
   */
  lemma {:induction false} TornBodySwallows(crc: bytes -> u32, r: Record, k: nat, later: bytes, st: State)
    requires Fits(r) && HEADER <= k < Size(r)
    ensures var log := RecordBytes(crc, r)[..k] + later;
            && (|log| < Size(r) ==> Scan(crc, log, st) == Outcome(st.calls, Some(BadLength)))
            && (|log| >= Size(r) && crc([r.op] + log[HEADER..Size(r)]) != crc([r.op] + r.key + r.value) ==>
                  Scan(crc, log, st) == Outcome(st.calls, Some(BadChecksum)))
            && (|log| >= Size(r) && crc([r.op] + log[HEADER..Size(r)]) == crc([r.op] + r.key + r.value) ==>
                  ReadFront(crc, log) == Whole(Record(r.op, log[HEADER..HEADER + |r.key|], log[HEADER + |r.key|..Size(r)])))
  {
    hide RecordBytes, Get32;
    RecordFields(crc, r, []);
    RecordLength(crc, r);
    var s, log := RecordBytes(crc, r) + [], RecordBytes(crc, r)[..k] + later;
    assert log[..k] == s[..k];
    SameLengths(log, s, k);
    SamePart(log, s, k, 17, 21);
  }

  lemma SamePart(a: bytes, b: bytes, k: nat, i: nat, j: nat)
    requires i <= j <= k <= |a| && k <= |b| && a[..k] == b[..k]
    ensures a[i..j] == b[i..j]
  {
    assert a[i..j] == a[..k][i..j] && b[i..j] == b[..k][i..j];
  }

  lemma SameLengths(a: bytes, b: bytes, k: nat)
    requires 17 <= k <= |a| && k <= |b| && a[..k] == b[..k]
    ensures a[..8] == b[..8] && a[8] == b[8] && a[9..13] == b[9..13] && a[13..17] == b[13..17]
  {
    SamePart(a, b, k, 0, 8);
    SamePart(a, b, k, 9, 13);
    SamePart(a, b, k, 13, 17);
    assert a[..k][8] == b[..k][8];
  }

  lemma Get32Large(s: bytes)
    requires |s| == 4
    ensures Get32(s) >= 0x100_0000 * (s[3] as int)
  {
  }

  /** What stands at the place `p` when a log goes on behind `k` bytes of a record. */
  lemma {:induction false} BehindTear(crc: bytes -> u32, r: Record, k: nat, later: seq<Record>, p: nat)
    requires Fits(r) && later != [] && (forall i :: 0 <= i < |later| ==> Fits(later[i])) && k <= p < k + 8 && k <= Size(r)
    ensures var log := RecordBytes(crc, r)[..k] + LogBytes(crc, later);
            |log| >= k + HEADER && log[p] == MAGIC[p - k]
  {
    var first := RecordBytes(crc, later[0]);
    assert LogBytes(crc, later) == first + LogBytes(crc, later[1..]);
    assert first[..8] == MAGIC;
    var log := RecordBytes(crc, r)[..k] + LogBytes(crc, later);
    assert log[p] == first[p - k] == first[..8][p - k];
  }

  /**
   * Behind a record torn before its lengths are complete, a byte of the next
   * record's magic ends one of them, so that the body would be more than
   * 0x4100_0000 bytes long: a length error in every shorter log.
   */
  lemma {:induction false} TornLengthsFail(crc: bytes -> u32, r: Record, k: nat, later: seq<Record>, st: State)
    requires Fits(r) && 8 <= k < 17 && later != [] && forall i :: 0 <= i < |later| ==> Fits(later[i])
    requires |RecordBytes(crc, r)[..k] + LogBytes(crc, later)| < HEADER + 0x4100_0000
    ensures Scan(crc, RecordBytes(crc, r)[..k] + LogBytes(crc, later), st) == Outcome(st.calls, Some(BadLength))
  {
    hide Get32, LogBytes, RecordBytes;
    var log := RecordBytes(crc, r)[..k] + LogBytes(crc, later);
    RecordFields(crc, r, []);
    assert log[..8] == (RecordBytes(crc, r) + [])[..8];
    BehindTear(crc, r, k, later, k);
    if k <= 12 {
      BehindTear(crc, r, k, later, 12);
      Get32Large(log[9..13]);
      assert log[9..13][3] == log[12] == MAGIC[12 - k];
    } else {
      BehindTear(crc, r, k, later, 16);
      Get32Large(log[13..17]);
      assert log[13..17][3] == log[16] == MAGIC[16 - k];
    }
  }

  /**
   * Behind a record torn inside its checksum the lengths are right, and part of
   * the checksum is the next record's magic: replay fails while there are too
   * few bytes, and then exactly when the mixed checksum is not that of the
   * bytes taken for the body.
   */
  lemma {:induction false} TornChecksumMixes(crc: bytes -> u32, r: Record, k: nat, later: seq<Record>, st: State)
    requires Fits(r) && 17 <= k < HEADER && later != [] && forall i :: 0 <= i < |later| ==> Fits(later[i])
    ensures var log := RecordBytes(crc, r)[..k] + LogBytes(crc, later);
            && |log| >= HEADER && log[17..21] == Le32(crc([r.op] + r.key + r.value))[..k - 17] + MAGIC[..21 - k]
            && (|log| < Size(r) ==> Scan(crc, log, st) == Outcome(st.calls, Some(BadLength)))
            && (|log| >= Size(r) && crc([r.op] + log[HEADER..Size(r)]) != Get32(log[17..21]) ==>
                  Scan(crc, log, st) == Outcome(st.calls, Some(BadChecksum)))
            && (|log| >= Size(r) && crc([r.op] + log[HEADER..Size(r)]) == Get32(log[17..21]) ==>
                  ReadFront(crc, log) == Whole(Record(r.op, log[HEADER..HEADER + |r.key|], log[HEADER + |r.key|..Size(r)])))
  {
    hide Get32, LogBytes, RecordBytes, Le32;
    var s, log := RecordBytes(crc, r) + [], RecordBytes(crc, r)[..k] + LogBytes(crc, later);
    RecordFields(crc, r, []);
    ChecksumAt(crc, r);
    forall p | k <= p < HEADER ensures |log| >= HEADER && log[p] == MAGIC[p - k] { BehindTear(crc, r, k, later, p); }
    BehindTear(crc, r, k, later, k);
    assert log[..k] == s[..k];
    SameLengths(log, s, k);
    assert log[17..k] == RecordBytes(crc, r)[17..21][..k - 17];
  }

  lemma {:induction false} ChecksumAt(crc: bytes -> u32, r: Record)
    requires Fits(r)
    ensures RecordBytes(crc, r)[17..21] == Le32(crc([r.op] + r.key + r.value))
  {
    hide Le32;
    var kl, vl, sum := Le32(|r.key|), Le32(|r.value|), Le32(crc([r.op] + r.key + r.value));
    assert RecordBytes(crc, r) == MAGIC + [r.op] + kl + vl + sum + r.key + r.value;
  }

  // ------------------------------------------------------------- whole runs

  function AllRecords(items: seq<Item>): seq<Record>
  {
    if items == [] then [] else AllRecords(items[..|items| - 1]) + RecordsOf(items[|items| - 1])
  }

  /** The calls an item commits to: a single write, or all of a batch, or nothing. */
  function CommittedBy(item: Item): seq<Call>
  {
    match item
    case Single(isDelete, key, value) => [Call(if isDelete then DELETE else PUT, key, value)]
    case Batch(_, ops) => CallsOf(ops)
    case Torn(_, _) => []
  }

  function Committed(items: seq<Item>): seq<Call>
  {
    if items == [] then [] else Committed(items[..|items| - 1]) + CommittedBy(items[|items| - 1])
  }

  /** How many items lie wholly inside the first `n` bytes. */
  function WholeItems(items: seq<Item>, n: nat): (c: nat)
    ensures c <= |items|
  {
    if items == [] || n < LogSize(RecordsOf(items[0])) then 0
    else 1 + WholeItems(items[1..], n - LogSize(RecordsOf(items[0])))
  }

  /** No committed batch carries the id of an earlier torn batch that left operations behind. */
  predicate NoStaleReuse(items: seq<Item>)
  {
    forall i, j :: 0 <= i < j < |items| && items[i].Torn? && items[i].ops != [] && items[j].Batch? ==>
      items[j].id != items[i].id
  }

  // ------------------------------------------ what replay makes of the items

  /** Operations logged for `id` that no commit marker has followed yet. */
  function Stale(items: seq<Item>, id: u64): seq<BatchOp>
  {
    if items == [] then [] else
      var rest, last := Stale(items[..|items| - 1], id), items[|items| - 1];
      if last.Single? || last.id != id then rest
      else if last.Batch? then []
      else rest + last.ops
  }

  /** The calls replay makes: a commit marker releases everything waiting under its id. */
  function Replayed(items: seq<Item>): seq<Call>
  {
    if items == [] then [] else
      var before, last := items[..|items| - 1], items[|items| - 1];
      Replayed(before) +
        match last
        case Single(_, _, _) => CommittedBy(last)
        case Batch(id, ops) => CallsOf(Stale(before, id)) + CallsOf(ops)
        case Torn(_, _) => []
  }

  lemma {:induction false} StepsAppend(st: State, a: seq<Record>, b: seq<Record>)
    requires forall i :: 0 <= i < |a| ==> WellFormed(a[i])
    requires forall i :: 0 <= i < |b| ==> WellFormed(b[i])
    ensures Steps(st, a + b) == Steps(Steps(st, a), b)
    decreases |a|
  {
    hide Step, WellFormed;
    if a == [] {
      assert a + b == b;
    } else {
      StepsAppend(Step(st, a[0]), a[1..], b);
      assert (a + b)[1..] == a[1..] + b;
    }
  }

  lemma TxRecordWellFormed(id: u64, op: BatchOp)
    ensures WellFormed(TxRecord(id, op)) && TxRecord(id, op).key[..8] == Le64(id) && TxRecord(id, op).key[8..] == op.key
    ensures Get64(Le64(id)) == id
  {
    RoundTrip64(id);
  }

  lemma {:induction false} StepTx(st: State, id: u64, op: BatchOp)
    ensures WellFormed(TxRecord(id, op))
    ensures var st' := Step(st, TxRecord(id, op));
            && st'.calls == st.calls
            && forall x :: Waiting(st'.pending, x) == Waiting(st.pending, x) + if x == id then [op] else []
  {
    hide Get64, Le64, WellFormed;
    TxRecordWellFormed(id, op);
  }

  lemma TxRecordsLast(id: u64, ops: seq<BatchOp>)
    requires ops != []
    ensures TxRecords(id, ops) == TxRecords(id, ops[..|ops| - 1]) + [TxRecord(id, ops[|ops| - 1])]
  {
  }

  /** Batch operations only wait; they call nothing. */
  lemma {:induction false} StepsTx(st: State, id: u64, ops: seq<BatchOp>)
    ensures forall i :: 0 <= i < |TxRecords(id, ops)| ==> WellFormed(TxRecords(id, ops)[i])
    ensures var st' := Steps(st, TxRecords(id, ops));
            && st'.calls == st.calls
            && forall x :: Waiting(st'.pending, x) == Waiting(st.pending, x) + if x == id then ops else []
    decreases |ops|
  {
    hide WellFormed, Step, TxRecord, Waiting;
    if ops != [] {
      var n := |ops| - 1;
      var a, r := TxRecords(id, ops[..n]), TxRecord(id, ops[n]);
      StepsTx(st, id, ops[..n]);
      StepTx(Steps(st, a), id, ops[n]);
      TxRecordsLast(id, ops);
      StepsOne(Steps(st, a), r);
      StepsAppend(st, a, [r]);
      assert ops == ops[..n] + [ops[n]];
      forall x ensures Waiting(Steps(st, a + [r]).pending, x) == Waiting(st.pending, x) + if x == id then ops else [] {
        assert Waiting(st.pending, x) + ops[..n] + [ops[n]] == Waiting(st.pending, x) + ops;
      }
    }
  }

  lemma StepsOne(st: State, r: Record)
    requires WellFormed(r)
    ensures Steps(st, [r]) == Step(st, r)
  {
    assert [r][1..] == [];
  }

  lemma {:induction false} RecordsWellFormed(items: seq<Item>)
    ensures forall i :: 0 <= i < |AllRecords(items)| ==> WellFormed(AllRecords(items)[i])
    ensures (forall i :: 0 <= i < |items| ==> Logged(items[i])) ==>
            forall i :: 0 <= i < |AllRecords(items)| ==> Fits(AllRecords(items)[i])
  {
    hide WellFormed, Fits, TxRecord;
    if items != [] {
      RecordsWellFormed(items[..|items| - 1]);
      ItemWellFormed(items[|items| - 1]);
    }
  }

  lemma {:induction false} ItemWellFormed(item: Item)
    ensures forall i :: 0 <= i < |RecordsOf(item)| ==> WellFormed(RecordsOf(item)[i])
    ensures Logged(item) ==> forall i :: 0 <= i < |RecordsOf(item)| ==> Fits(RecordsOf(item)[i])
  {
    if !item.Single? {
      forall i | 0 <= i < |item.ops| ensures WellFormed(TxRecords(item.id, item.ops)[i]) {
        TxRecordWellFormed(item.id, item.ops[i]);
      }
    }
  }

  lemma AllRecordsIs(items: seq<Item>)
    ensures AllRecords(items) == if items == [] then [] else AllRecords(items[..|items| - 1]) + RecordsOf(items[|items| - 1])
  {
  }

  /** Replay over whole items, in terms of the items. */
  lemma {:induction false} StepsItems(items: seq<Item>)
    requires forall i :: 0 <= i < |AllRecords(items)| ==> WellFormed(AllRecords(items)[i])
    ensures Steps(START, AllRecords(items)).calls == Replayed(items)
    ensures forall id :: Waiting(Steps(START, AllRecords(items)).pending, id) == Stale(items, id)
  {
    hide WellFormed, Steps, RecordsOf, CommittedBy, CallsOf, Waiting, AllRecords;
    AllRecordsIs(items);
    if items == [] {
      StepsNone();
    } else {
      var n := |items| - 1;
      var before, last := items[..n], items[n];
      RecordsWellFormed(before);
      ItemWellFormed(last);
      StepsItems(before);
      StepsAppend(START, AllRecords(before), RecordsOf(last));
      StepsItem(Steps(START, AllRecords(before)), last);
    }
  }

  lemma StepsNone()
    ensures Steps(START, []) == START && forall id :: Waiting(START.pending, id) == []
  {
  }

  lemma {:induction false} StepsItem(st: State, item: Item)
    requires forall i :: 0 <= i < |RecordsOf(item)| ==> WellFormed(RecordsOf(item)[i])
    ensures var st' := Steps(st, RecordsOf(item));
            match item
            case Single(_, _, _) => st'.calls == st.calls + CommittedBy(item) && st'.pending == st.pending
            case Torn(id, ops) =>
              && st'.calls == st.calls
              && forall x :: Waiting(st'.pending, x) == Waiting(st.pending, x) + if x == id then ops else []
            case Batch(id, ops) =>
              && st'.calls == st.calls + (CallsOf(Waiting(st.pending, id)) + CallsOf(ops))
              && forall x :: Waiting(st'.pending, x) == if x == id then [] else Waiting(st.pending, x)
  {
    hide Get64, Le64, TxRecords;
    match item
    case Single(_, _, _) =>
      StepsOne(st, RecordsOf(item)[0]);
      assert RecordsOf(item) == [RecordsOf(item)[0]];
    case Torn(id, ops) =>
      StepsTx(st, id, ops);
    case Batch(id, ops) =>
      StepsTx(st, id, ops);
      RoundTrip64(id);
      var mid := Steps(st, TxRecords(id, ops));
      assert CommitRecord(id).key[..8] == Le64(id);
      StepsOne(mid, CommitRecord(id));
      StepsAppend(st, TxRecords(id, ops), [CommitRecord(id)]);
      assert CallsOf(Waiting(st.pending, id) + ops) == CallsOf(Waiting(st.pending, id)) + CallsOf(ops);
  }

  /** No torn batch in `items` left operations under `id`. */
  predicate Unused(items: seq<Item>, id: u64)
  {
    forall i :: 0 <= i < |items| && items[i].Torn? && items[i].ops != [] ==> items[i].id != id
  }

  lemma {:induction false} NoStaleReusePush(before: seq<Item>, last: Item)
    ensures NoStaleReuse(before + [last]) <==> NoStaleReuse(before) && (last.Batch? ==> Unused(before, last.id))
  {
    var items, n := before + [last], |before|;
    assert forall i :: 0 <= i < n ==> items[i] == before[i];
    if NoStaleReuse(items) && last.Batch? {
      forall i | 0 <= i < n && before[i].Torn? && before[i].ops != [] ensures before[i].id != last.id {
        assert items[i] == before[i] && items[n] == last;
      }
    }
  }

  /** Nothing is stale under `id` exactly when no earlier torn batch left operations under it. */
  lemma {:induction false} StaleWhen(items: seq<Item>, id: u64)
    requires NoStaleReuse(items)
    ensures Stale(items, id) == [] <==> Unused(items, id)
  {
    hide NoStaleReuse, Unused;
    if items == [] {
      NoItems(items, id);
    } else {
      var before, last := items[..|items| - 1], items[|items| - 1];
      assert items == before + [last];
      NoStaleReusePush(before, last);
      UnusedPush(before, last, id);
      StaleWhen(before, id);
    }
  }

  lemma {:induction false} UnusedPush(before: seq<Item>, last: Item, id: u64)
    ensures Unused(before + [last], id) <==> Unused(before, id) && (last.Torn? && last.ops != [] ==> last.id != id)
  {
    var items := before + [last];
    assert forall i :: 0 <= i < |before| ==> items[i] == before[i];
    assert items[|before|] == last;
  }

  /** Replay makes exactly the committed calls if and only if no stale id is reused. */
  lemma {:induction false} ReplayedIsCommitted(items: seq<Item>)
    ensures |Replayed(items)| >= |Committed(items)|
    ensures NoStaleReuse(items) ==> Replayed(items) == Committed(items)
    ensures !NoStaleReuse(items) ==> |Replayed(items)| > |Committed(items)|
  {
    hide NoStaleReuse, Unused, Stale;
    if items == [] {
      NoItems(items, 0);
    } else {
      var n := |items| - 1;
      var before, last := items[..n], items[n];
      ReplayedIsCommitted(before);
      assert items == before + [last];
      NoStaleReusePush(before, last);
      if NoStaleReuse(before) && last.Batch? {
        StaleWhen(before, last.id);
      }
    }
  }

  lemma NoItems(items: seq<Item>, id: u64)
    requires items == []
    ensures NoStaleReuse(items) && Unused(items, id)
  {
  }

  // -------------------------------------------------------------- the cut

  lemma {:induction false} LogSizeAppend(a: seq<Record>, b: seq<Record>)
    ensures LogSize(a + b) == LogSize(a) + LogSize(b)
    decreases |a|
  {
    if a == [] {
      assert a + b == b;
    } else {
      LogSizeAppend(a[1..], b);
      assert (a + b)[1..] == a[1..] + b;
    }
  }

  lemma {:induction false} WholeRecordsBehind(a: seq<Record>, b: seq<Record>, n: nat)
    requires n >= LogSize(a)
    ensures WholeRecords(a + b, n) == |a| + WholeRecords(b, n - LogSize(a))
    decreases |a|
  {
    hide Size;
    if a == [] {
      assert a + b == b;
    } else {
      WholeRecordsBehind(a[1..], b, n - Size(a[0]));
      assert (a + b)[1..] == a[1..] + b;
    }
  }

  lemma {:induction false} WholeRecordsInside(a: seq<Record>, b: seq<Record>, n: nat)
    requires n < LogSize(a)
    ensures WholeRecords(a + b, n) < |a|
    decreases |a|
  {
    if a != [] && n >= Size(a[0]) {
      WholeRecordsInside(a[1..], b, n - Size(a[0]));
      assert (a + b)[1..] == a[1..] + b;
    }
  }

  lemma {:induction false} AllRecordsAppend(a: seq<Item>, b: seq<Item>)
    ensures AllRecords(a + b) == AllRecords(a) + AllRecords(b)
    decreases |b|
  {
    hide RecordsOf;
    if b == [] {
      assert a + b == a;
    } else {
      AllRecordsAppend(a, b[..|b| - 1]);
      AllRecordsIs(b);
      AllRecordsIs(a + b);
      assert (a + b)[..|a + b| - 1] == a + b[..|b| - 1];
    }
  }

  lemma {:induction false} AllRecordsCons(item: Item, rest: seq<Item>)
    ensures AllRecords([item] + rest) == RecordsOf(item) + AllRecords(rest)
  {
    hide RecordsOf;
    AllRecordsAppend([item], rest);
    OneItem(item);
  }

  /** The whole items end at or before the cut, the next item after it. */
  lemma {:induction false} WholeItemsExact(items: seq<Item>, n: nat)
    ensures var c := WholeItems(items, n);
            && LogSize(AllRecords(items[..c])) <= n
            && (c < |items| ==> n < LogSize(AllRecords(items[..c])) + LogSize(RecordsOf(items[c])))
    decreases |items|
  {
    hide RecordsOf, LogSize, AllRecords;
    var c := WholeItems(items, n);
    NoRecords();
    if items != [] && n >= LogSize(RecordsOf(items[0])) {
      WholeItemsExact(items[1..], n - LogSize(RecordsOf(items[0])));
      AllRecordsCons(items[0], items[1..][..c - 1]);
      assert items[..c] == [items[0]] + items[1..][..c - 1];
      LogSizeAppend(RecordsOf(items[0]), AllRecords(items[1..][..c - 1]));
    } else {
      assert items[..c] == [];
    }
  }

  lemma NoRecords()
    ensures AllRecords([]) == [] && LogSize([]) == 0
  {
  }

  /** The whole records before a cut: all those of the whole items, then part of the item that was cut. */
  lemma {:induction false} CutInsideItem(items: seq<Item>, n: nat) returns (p: nat)
    requires n <= LogSize(AllRecords(items))
    ensures var c, m := WholeItems(items, n), WholeRecords(AllRecords(items), n);
            && (c < |items| ==> p < |RecordsOf(items[c])|)
            && m <= |AllRecords(items)|
            && AllRecords(items)[..m] ==
               AllRecords(items[..c]) + if c < |items| then RecordsOf(items[c])[..p] else []
  {
    hide RecordsOf, LogSize, WholeRecords, AllRecords, WholeItems;
    var c := WholeItems(items, n);
    WholeItemsExact(items, n);
    var a, b := AllRecords(items[..c]), AllRecords(items[c..]);
    assert items == items[..c] + items[c..];
    AllRecordsAppend(items[..c], items[c..]);
    WholeRecordsBehind(a, b, n);
    var k := n - LogSize(a);
    p := WholeRecords(b, k);
    if c < |items| {
      AllRecordsCons(items[c], items[c + 1..]);
      assert items[c..] == [items[c]] + items[c + 1..];
      WholeRecordsInside(RecordsOf(items[c]), AllRecords(items[c + 1..]), k);
    } else {
      NoRecords();
      assert items[c..] == [];
    }
  }

  lemma OneItem(item: Item)
    ensures AllRecords([item]) == RecordsOf(item)
  {
    assert [item][..0] == [];
  }

  /** Part of an item calls nothing. */
  lemma {:induction false} PartialItem(st: State, item: Item, p: nat)
    requires p < |RecordsOf(item)|
    ensures forall i :: 0 <= i < p ==> WellFormed(RecordsOf(item)[..p][i])
    ensures Steps(st, RecordsOf(item)[..p]).calls == st.calls
  {
    hide WellFormed;
    ItemWellFormed(item);
    if !item.Single? {
      StepsTx(st, item.id, item.ops[..p]);
      assert RecordsOf(item)[..p] == TxRecords(item.id, item.ops[..p]);
    }
  }

  /** The bytes a run of writer calls leaves in an empty log. */
  function LogOf(crc: bytes -> u32, items: seq<Item>): bytes
    requires forall i :: 0 <= i < |items| ==> Logged(items[i])
  {
    RecordsWellFormed(items);
    LogBytes(crc, AllRecords(items))
  }

  /** One more call appends the records of its item. */
  lemma {:induction false} LogOfPush(crc: bytes -> u32, items: seq<Item>, item: Item)
    requires Logged(item) && forall i :: 0 <= i < |items| ==> Logged(items[i])
    ensures LogOf(crc, items + [item]) == LogOf(crc, items) + ItemBytes(crc, item)
  {
    hide RecordsOf, LogBytes, Fits;
    ItemWellFormed(item);
    RecordsWellFormed(items);
    assert (items + [item])[..|items|] == items;
    LogBytesAppend(crc, AllRecords(items), RecordsOf(item));
  }

  /**
   * Recovery from a log cut at any byte.  The calls are those of the single
   * writes and whole batches before the cut, in order and never part of a
   * batch, exactly when no stale transaction id is reused; an error is reported
   * exactly when the cut falls in the body of a record.
   */
  lemma {:induction false} TruncatedReplay(crc: bytes -> u32, items: seq<Item>, n: nat)
    requires forall i :: 0 <= i < |items| ==> Logged(items[i])
    requires n <= |LogOf(crc, items)|
    ensures var out, c := Scan(crc, LogOf(crc, items)[..n], START), WholeItems(items, n);
            && (out.calls == Committed(items[..c]) <==> NoStaleReuse(items[..c]))
            && out.failure == if CleanCut(AllRecords(items), n) then None else Some(BadLength)
  {
    hide LogBytes, Scan, RecordsOf, AllRecords, WellFormed, Fits, WholeRecords, WholeItems, Steps, NoStaleReuse,
         Committed, Replayed, Stale;
    var rs, c := AllRecords(items), WholeItems(items, n);
    RecordsWellFormed(items);
    RecordsWellFormed(items[..c]);
    RecordTruncation(crc, rs, n, START);
    LogBytesSize(crc, rs);
    var p := CutInsideItem(items, n);
    var a := AllRecords(items[..c]);
    if c < |items| {
      PartialItem(Steps(START, a), items[c], p);
      StepsAppend(START, a, RecordsOf(items[c])[..p]);
    } else {
      assert a + [] == a;
    }
    StepsItems(items[..c]);
    ReplayedIsCommitted(items[..c]);
  }

  /** In particular, when every batch got its commit marker. */
  lemma {:induction false} TruncatedRun(crc: bytes -> u32, items: seq<Item>, n: nat)
    requires forall i :: 0 <= i < |items| ==> Logged(items[i]) && !items[i].Torn?
    requires n <= |LogOf(crc, items)|
    ensures Scan(crc, LogOf(crc, items)[..n], START) ==
            Outcome(Committed(items[..WholeItems(items, n)]), if CleanCut(AllRecords(items), n) then None else Some(BadLength))
  {
    hide LogBytes, Scan, AllRecords, CleanCut, WholeItems, Committed, LogOf;
    TruncatedReplay(crc, items, n);
  }

  /** The items whose records lie before a cut; a batch that was cut is a torn one. */
  function Survivors(items: seq<Item>, n: nat): seq<Item>
  {
    var c := WholeItems(items, n);
    var p := WholeRecords(AllRecords(items), n) - |AllRecords(items[..c])|;
    if c < |items| && !items[c].Single? && 0 < p <= |items[c].ops| then items[..c] + [Torn(items[c].id, items[c].ops[..p])]
    else items[..c]
  }

  lemma {:induction false} SurvivorsRecords(items: seq<Item>, n: nat)
    requires n <= LogSize(AllRecords(items))
    ensures AllRecords(Survivors(items, n)) == AllRecords(items)[..WholeRecords(AllRecords(items), n)]
    ensures Committed(Survivors(items, n)) == Committed(items[..WholeItems(items, n)])
  {
    hide WholeItems, WholeRecords, AllRecords, LogSize, Committed;
    var c := WholeItems(items, n);
    var p := CutInsideItem(items, n);
    var a := AllRecords(items[..c]);
    assert a + [] == a;
    if c < |items| && !items[c].Single? && p > 0 {
      var torn := Torn(items[c].id, items[c].ops[..p]);
      assert RecordsOf(items[c])[..p] == TxRecords(items[c].id, items[c].ops[..p]);
      AllRecordsAppend(items[..c], [torn]);
      OneItem(torn);
      CommittedPush(items[..c], torn);
      assert Committed(items[..c]) + [] == Committed(items[..c]);
    }
  }

  lemma CommittedPush(items: seq<Item>, item: Item)
    ensures Committed(items + [item]) == Committed(items) + CommittedBy(item)
  {
    assert (items + [item])[..|items|] == items;
  }

  lemma {:induction false} CommittedAppend(a: seq<Item>, b: seq<Item>)
    ensures Committed(a + b) == Committed(a) + Committed(b)
    decreases |b|
  {
    hide CommittedBy;
    if b == [] {
      assert a + b == a;
    } else {
      var n := |b| - 1;
      CommittedAppend(a, b[..n]);
      assert a + b == (a + b[..n]) + [b[n]] && b == b[..n] + [b[n]];
      CommittedPush(a + b[..n], b[n]);
      CommittedPush(b[..n], b[n]);
    }
  }

  /**
   * A log cut at a record boundary and written on by a later run: replay
   * succeeds, with the committed calls before the cut and then those of the
   * later run, exactly when no batch carries the id of one left torn.
   */
  lemma {:induction false} LaterRun(crc: bytes -> u32, items: seq<Item>, n: nat, later: seq<Item>)
    requires forall i :: 0 <= i < |items| ==> Logged(items[i])
    requires forall i :: 0 <= i < |later| ==> Logged(later[i])
    requires n <= |LogOf(crc, items)| && n == LogSize(AllRecords(items)[..WholeRecords(AllRecords(items), n)])
    ensures var out := Scan(crc, LogOf(crc, items)[..n] + LogOf(crc, later), START);
            && out.failure == None
            && (out.calls == Committed(items[..WholeItems(items, n)]) + Committed(later) <==> NoStaleReuse(Survivors(items, n) + later))
  {
    hide LogBytes, Scan, RecordsOf, AllRecords, WellFormed, Fits, WholeRecords, WholeItems, Steps, NoStaleReuse,
         Committed, Replayed, Survivors, LogSize;
    var rs, s := AllRecords(items), Survivors(items, n);
    RecordsWellFormed(items);
    RecordsWellFormed(later);
    RecordsWellFormed(s + later);
    LogBytesSize(crc, rs);
    WrittenBehindCut(crc, rs, n, AllRecords(later), START);
    SurvivorsRecords(items, n);
    AllRecordsAppend(s, later);
    StepsItems(s + later);
    ReplayedIsCommitted(s + later);
    CommittedAppend(s, later);
  }

  /** A log in which a discarded batch comes back: the next batch happens to carry its id. */
  lemma {:induction false} StaleBatchComesBack(crc: bytes -> u32)
    ensures var items := [Torn(1, [BatchOp([97], [98], false)]), Batch(1, [])];
            && (forall i :: 0 <= i < |items| ==> Logged(items[i]))
            && Committed(items) == []
            && Scan(crc, LogOf(crc, items), START).calls == [Call(PUT, [97], [98])]
  {
    hide Scan, LogOf, Replayed, Committed;
    var items := [Torn(1, [BatchOp([97], [98], false)]), Batch(1, [])];
    WholeLog(crc, items);
    StaleReplayed(BatchOp([97], [98], false));
  }

  lemma StaleReplayed(op: BatchOp)
    ensures var items := [Torn(1, [op]), Batch(1, [])];
            Replayed(items) == CallsOf([op]) && Committed(items) == []
  {
    hide CallsOf;
    var items := [Torn(1, [op]), Batch(1, [])];
    assert items[..1] == [Torn(1, [op])] && items[..1][..0] == [];
    assert Stale(items[..1], 1) == [op] && Replayed(items[..1]) == [] && Committed(items[..1]) == [];
    NoCalls();
  }

  lemma NoCalls()
    ensures CallsOf([]) == []
  {
  }

  /** Replay of an undamaged log. */
  lemma {:induction false} WholeLog(crc: bytes -> u32, items: seq<Item>)
    requires forall i :: 0 <= i < |items| ==> Logged(items[i])
    ensures Scan(crc, LogOf(crc, items), START) == Outcome(Replayed(items), None)
  {
    hide LogBytes, Scan, Steps, AllRecords, RecordsOf, WellFormed, Fits, Replayed, Logged;
    RecordsWellFormed(items);
    var rs := AllRecords(items);
    assert LogBytes(crc, rs) + [] == LogBytes(crc, rs);
    ScanRecords(crc, rs, [], START);
    ScanNothing(crc, Steps(START, rs));
    StepsItems(items);
  }
}
