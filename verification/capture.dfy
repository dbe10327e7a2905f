/**
 * capture: writes a begin-frame record (record number 0), maxRecords
 * int64-change records (numbers 1 to maxRecords) and an end-frame record
 * (number maxRecords + 1) to the data file, indexing each record number by
 * the byte offset its write started at, and then saves the index as the
 * ascending list of its entries. Whether each create, stat and write call
 * fails is given by a `CaptureEnv`.
 */
module Capture {
  import opened Common
  import opened Codec
  import opened BTree
  import opened DataLog

  /** What goes wrong while writing one record, if anything. */
  datatype Fault = NoFault | StatFault | WriteFault

  /**
   * The outcome of every I/O call capture makes: creating the index file,
   * creating the data file, the call for each record number, and saving.
   */
  datatype CaptureEnv = CaptureEnv(
    createIndexFails: bool,
    createDataFails: bool,
    faults: map<int, Fault>,
    saveFails: bool)

  function FaultFor(env: CaptureEnv, k: int): Fault
  {
    if k in env.faults then env.faults[k] else NoFault
  }

  // ---------------------------------------------------------------------
  // The records capture writes.
  // ---------------------------------------------------------------------

  /** A Go string literal: its characters are ASCII, one byte each. */
  function AsciiBytes(s: string): (r: GoString)
    requires |s| <= MaxInt64
    requires forall i :: 0 <= i < |s| ==> s[i] < 128 as char
    ensures |r| == |s|
    ensures forall i :: 0 <= i < |r| ==> r[i] == s[i] as int
  {
    seq(|s|, i requires 0 <= i < |s| => s[i] as int)
  }

  const ClassName: GoString := AsciiBytes("java/lang/String")
  const MethodName: GoString := AsciiBytes("getBytes")
  const MethodType: GoString := AsciiBytes("()[B")

  const BeginFrameWrapper: RecordWrapper :=
    RecordWrapper(RTypeBeginFrame, BeginFrame(RTypeBeginFrame, ClassName, MethodName, MethodType))

  const EndFrameWrapper: RecordWrapper :=
    RecordWrapper(RTypeEndFrame, EndFrame(RTypeEndFrame, ClassName, MethodName, MethodType))

  /** Record number k of the loop: the value went from k - 1 to k. */
  function I64ChangeWrapper(k: Int32): (w: RecordWrapper)
    requires k >= 1
  {
    RecordWrapper(RTypeI64Change, I64Change(RTypeI64Change, k - 1, k))
  }

  /** The record capture writes under record number `k`. */
  function Expected(k: nat, n: nat): (w: RecordWrapper)
    requires k <= n + 1 <= MaxInt32
    ensures w.rtype == (if k == 0 then RTypeBeginFrame else if k <= n then RTypeI64Change else RTypeEndFrame)
  {
    if k == 0 then BeginFrameWrapper
    else if k <= n then I64ChangeWrapper(k)
    else EndFrameWrapper
  }

  /** Encoded sizes: each frame record takes 55 bytes, each change record 19. */
  lemma ExpectedSize(k: nat, n: nat)
    requires k <= n + 1 <= MaxInt32
    ensures |Encode(Expected(k, n))| == if k == 0 || k == n + 1 then 55 else 19
  {
    assert |ClassName| == 16 && |MethodName| == 8 && |MethodType| == 4;
  }

  /**
   * Where record number k starts in the data file: the begin frame and the
   * change records before it, and after the last record the file's size.
   */
  function Offset(k: nat, n: nat): nat
  {
    if k == 0 then 0
    else if k <= n + 1 then 55 + 19 * (k - 1)
    else 110 + 19 * n
  }

  /** The data file after records 0 to k - 1 have been written. */
  function Log(k: nat, n: nat): (r: seq<Byte>)
    requires k <= n + 2 <= MaxInt32 + 1
    ensures |r| == Offset(k, n)
  {
    RecordsAdjacent(n);
    ConcatPlaced(k, n + 2, OffsetAt(n), RecordAt(n));
    Concat(k, RecordAt(n))
  }

  /** The index after records 0 to k - 1 have been written: each number maps to its offset. */
  ghost predicate IndexedUpTo(m: map<Int32, Int64>, k: int, n: nat)
  {
    && (forall i :: i in m <==> 0 <= i < k)
    && (forall i :: i in m ==> m[i] == Offset(i, n))
  }

  /** Indexing record number k extends the index by one number. */
  lemma IndexedStep(m: map<Int32, Int64>, k: Int32, n: nat)
    requires IndexedUpTo(m, k, n) && 0 <= k && Offset(k, n) <= MaxInt64
    ensures IndexedUpTo(m[k := Offset(k, n)], k + 1, n)
  {
  }

  /** The bytes capture writes under each record number. */
  function RecordAt(n: nat): nat -> seq<Byte>
  {
    (i: nat) => if i <= n + 1 <= MaxInt32 then Encode(Expected(i, n)) else []
  }

  /** The offset each record number is indexed under. */
  function OffsetAt(n: nat): nat -> nat
  {
    (i: nat) => Offset(i, n)
  }

  /**
   * `d` is laid out as records 0 to k - 1: it is as long as they are, and
   * each sits at its own offset.
   */
  ghost predicate Layout(d: seq<Byte>, k: nat, n: nat)
  {
    Placed(d, k, OffsetAt(n), RecordAt(n))
  }

  /** The index listing saveBtree produces after a complete capture. */
  function Canonical(n: nat): (l: seq<IndexRecord>)
    requires n < MaxInt32
    ensures |l| == n + 2
  {
    seq(n + 2, i requires 0 <= i < n + 2 => IndexRecord(i, Offset(i, n)))
  }

  /** None of the calls for record numbers 0 to k - 1 fails. */
  ghost predicate NoFaultBefore(env: CaptureEnv, k: int)
  {
    forall j :: 0 <= j < k ==> FaultFor(env, j) == NoFault
  }

  lemma NoFaultStep(env: CaptureEnv, k: int)
    requires NoFaultBefore(env, k) && FaultFor(env, k) == NoFault
    ensures NoFaultBefore(env, k + 1)
  {
  }

  /** The first record number whose write fails, or n + 2 when none of 0 to n + 1 does. */
  function FirstFault(env: CaptureEnv, k: nat, n: nat): (r: nat)
    requires k <= n + 2
    ensures k <= r <= n + 2
    ensures forall j :: k <= j < r ==> FaultFor(env, j) == NoFault
    ensures r <= n + 1 ==> FaultFor(env, r) != NoFault
    decreases n + 2 - k
  {
    if k == n + 2 || FaultFor(env, k) != NoFault then k
    else FirstFault(env, k + 1, n)
  }

  /**
   * Error, data file and index file left behind by a capture of `n` change
   * records. Every error is an I/O error; the data file is missing only when
   * a create failed; the index file has content exactly when capture
   * succeeds, and then the data file holds all n + 2 records.
   */
  function CaptureOutcome(n: nat, env: CaptureEnv): (r: (Option<Error>, Option<seq<Byte>>, Option<seq<Byte>>))
    requires n < MaxInt32
    ensures r.0.Some? ==> r.0.value.IoError?
    ensures r.1.None? ==> r.0 == Some(IoError(Create))
    ensures r.0.None? <==> r.2.Some? && r.2.value != []
    ensures r.0.None? ==> r.1 == Some(Log(n + 2, n)) && |r.2.value| == 8 + 12 * (n + 2)
  {
    if env.createIndexFails then (Some(IoError(Create)), None, None)
    else if env.createDataFails then (Some(IoError(Create)), None, Some([]))
    else
      var f := FirstFault(env, 0, n);
      if f <= n + 1 then
        (Some(IoError(if FaultFor(env, f) == StatFault then Stat else Write)), Some(Log(f, n)), Some([]))
      else if env.saveFails then (Some(IoError(Write)), Some(Log(n + 2, n)), Some([]))
      else (None, Some(Log(n + 2, n)), Some(EncodeSnapshot(Canonical(n))))
  }

  // ---------------------------------------------------------------------
  // The operations.
  // ---------------------------------------------------------------------

  /**
   * writeRecordToFile: the file's size before the write becomes the
   * record's offset, the encoding of `wrapper` is appended, and the index
   * maps `recordNumber` to that offset. When stat or the write fails
   * neither the file nor the index changes.
   */
  method WriteRecordToFile(log: AppendLog, tree: OrderedIndex, recordNumber: Int32,
                           wrapper: RecordWrapper, fault: Fault)
    returns (err: Option<Error>)
    requires log.Valid() && tree.Valid()
    modifies log, tree
    ensures log.Valid() && tree.Valid()
    ensures err.None? <==> fault == NoFault && |old(log.data)| + |Encode(wrapper)| <= MaxInt64
    ensures err.None? ==> log.data == old(log.data) + Encode(wrapper)
    ensures err.None? ==> tree.contents == old(tree.contents)[recordNumber := |old(log.data)|]
    ensures err.Some? ==> err == Some(IoError(if fault == StatFault then Stat else Write))
    ensures err.Some? ==> log.data == old(log.data) && tree.contents == old(tree.contents)
  {
    var offset, statErr := log.FileSize(fault == StatFault);
    if statErr.Some? {
      return statErr;
    }
    err := log.Append(Encode(wrapper), fault == WriteFault);
    if err.Some? {
      return;
    }
    var _ := tree.ReplaceOrInsert(IndexRecord(recordNumber, offset));
  }

  /**
   * saveBtree: the index file receives the index's entries in ascending
   * key order, which read back as exactly that listing.
   */
  method SaveBtree(tree: OrderedIndex, writeFails: bool) returns (err: Option<Error>, written: seq<Byte>)
    requires tree.Valid()
    ensures err.None? <==> !writeFails
    ensures err.None? ==> DecodeSnapshot(written).Ok?
    ensures err.None? ==> StrictlyAscending(DecodeSnapshot(written).value)
                          && Represents(DecodeSnapshot(written).value, tree.contents)
    ensures err.None? ==> |tree.entries| <= MaxInt64 && written == EncodeSnapshot(tree.entries)
    ensures err.Some? ==> err == Some(IoError(Write)) && written == []
  {
    var records := tree.Ascend();
    AscendingListingUnique(records, tree.entries, tree.contents);
    AscendingLength(records);
    if writeFails {
      return Some(IoError(Write)), [];
    }
    written := EncodeSnapshot(records);
    SnapshotRoundTrip(records);
    err := None;
  }

  /**
   * The state after records 0 to k - 1 have been written: the data file
   * holds their encodings, the index maps each of their numbers to its
   * offset, and none of their calls failed.
   */
  ghost predicate WrittenUpTo(log: AppendLog, tree: OrderedIndex, env: CaptureEnv, k: nat, n: nat)
    reads log, tree
  {
    && k <= n + 2 <= MaxInt32 + 1
    && log.Valid() && tree.Valid()
    && Layout(log.data, k, n)
    && IndexedUpTo(tree.contents, k, n)
    && NoFaultBefore(env, k)
  }

  /**
   * writeRecordToFile called for record number k with the record capture
   * writes there: on success the state moves on to k + 1, on failure the
   * files stay as they were.
   */
  method WriteNumbered(log: AppendLog, tree: OrderedIndex, env: CaptureEnv, k: Int32, n: nat,
                       wrapper: RecordWrapper)
    returns (err: Option<Error>)
    requires 0 <= k <= n + 1 <= MaxInt32
    requires wrapper == Expected(k, n)
    requires WrittenUpTo(log, tree, env, k, n)
    modifies log, tree
    ensures err.None? <==> FaultFor(env, k) == NoFault
    ensures err.None? ==> WrittenUpTo(log, tree, env, k + 1, n)
    ensures err.Some? ==> err == Some(IoError(if FaultFor(env, k) == StatFault then Stat else Write))
    ensures err.Some? ==> Layout(log.data, k, n) && NoFaultBefore(env, k)
    ensures err.Some? ==> WrittenUpTo(log, tree, env, k, n)
  {
    ExpectedSize(k, n);
    LogStepSize(k, n);
    label Before:
    err := WriteRecordToFile(log, tree, k, wrapper, FaultFor(env, k));
    if err.None? {
      LayoutStep(old@Before(log.data), k, n);
      IndexedStep(old@Before(tree.contents), k, n);
      NoFaultStep(env, k);
    }
  }

  /**
   * The writing phase of capture: the begin frame, the change records 1 to
   * n and the end frame, each under its record number, stopping at the
   * first call that fails. `stopped` is the number of records written.
   */
  method WriteRecords(log: AppendLog, tree: OrderedIndex, env: CaptureEnv, n: Int32)
    returns (err: Option<Error>, stopped: nat)
    requires 0 <= n < MaxInt32
    requires WrittenUpTo(log, tree, env, 0, n)
    modifies log, tree
    ensures stopped <= n + 2
    ensures err.None? <==> stopped == n + 2
    ensures err.None? ==> WrittenUpTo(log, tree, env, stopped, n)
    ensures err.Some? ==> Layout(log.data, stopped, n) && NoFaultBefore(env, stopped)
    ensures err.Some? ==> WrittenUpTo(log, tree, env, stopped, n)
    ensures err.Some? ==> FaultFor(env, stopped) != NoFault
                          && err == Some(IoError(if FaultFor(env, stopped) == StatFault then Stat else Write))
  {
    err := WriteNumbered(log, tree, env, 0, n, BeginFrameWrapper);
    if err.Some? {
      return err, 0;
    }
    err, stopped := WriteChanges(log, tree, env, n);
    if err.Some? {
      return;
    }
    err := WriteNumbered(log, tree, env, stopped, n, EndFrameWrapper);
    if err.Some? {
      return;
    }
    stopped := stopped + 1;
  }

  /**
   * The loop of capture: change records 1 to n, stopping at the first call
   * that fails. One change record is reused: its new value is set to the
   * record number before each write and becomes its old value after a
   * successful one, so record number k holds the change from k - 1 to k.
   */
  method WriteChanges(log: AppendLog, tree: OrderedIndex, env: CaptureEnv, n: Int32)
    returns (err: Option<Error>, stopped: nat)
    requires 0 <= n < MaxInt32
    requires WrittenUpTo(log, tree, env, 1, n)
    modifies log, tree
    ensures 1 <= stopped <= n + 1
    ensures err.None? <==> stopped == n + 1
    ensures err.None? ==> WrittenUpTo(log, tree, env, stopped, n)
    ensures err.Some? ==> Layout(log.data, stopped, n) && NoFaultBefore(env, stopped)
    ensures err.Some? ==> WrittenUpTo(log, tree, env, stopped, n)
    ensures err.Some? ==> FaultFor(env, stopped) != NoFault
                          && err == Some(IoError(if FaultFor(env, stopped) == StatFault then Stat else Write))
  {
    var change := I64Change(RTypeI64Change, 0, 0);
    var recordCounter: Int32 := 1;
    while recordCounter < n + 1
      invariant 1 <= recordCounter <= n + 1
      invariant WrittenUpTo(log, tree, env, recordCounter, n)
      invariant change.I64Change? && change.rid == RTypeI64Change && change.valueOld == recordCounter - 1
    {
      change := change.(valueNew := recordCounter);
      err := WriteNumbered(log, tree, env, recordCounter, n, RecordWrapper(RTypeI64Change, change));
      if err.Some? {
        return err, recordCounter;
      }
      change := change.(valueOld := change.valueNew);
      recordCounter := recordCounter + 1;
    }
    return None, recordCounter;
  }

  /**
   * capture with `maxRecords` change records: the error, the data file and
   * the index file it leaves behind are those of `CaptureOutcome`, and it
   * succeeds exactly when no I/O call fails.
   */
  method Capture(maxRecords: Int32, env: CaptureEnv)
    returns (err: Option<Error>, dataFile: Option<seq<Byte>>, indexFile: Option<seq<Byte>>)
    requires 0 <= maxRecords < MaxInt32
    ensures (err, dataFile, indexFile) == CaptureOutcome(maxRecords, env)
    ensures err.None? <==> !env.createIndexFails && !env.createDataFails && !env.saveFails
                           && forall k :: 0 <= k <= maxRecords + 1 ==> FaultFor(env, k) == NoFault
  {
    var n := maxRecords;
    CaptureSucceedsIff(n, env);
    if env.createIndexFails {
      return Some(IoError(Create)), None, None;
    }
    if env.createDataFails {
      return Some(IoError(Create)), None, Some([]);
    }
    var log := new AppendLog();
    var tree := new OrderedIndex();

    var stopped;
    err, stopped := WriteRecords(log, tree, env, n);
    LayoutIsLog(log.data, stopped, n);
    if err.Some? {
      OutcomeAtFault(n, env, stopped);
      return err, Some(log.data), Some([]);
    }
    OutcomeAfterWrites(n, env);

    var written;
    err, written := SaveBtree(tree, env.saveFails);
    if err.Some? {
      return err, Some(log.data), Some([]);
    }
    FinalListing(n, tree.entries, tree.contents);
    dataFile, indexFile := Some(log.data), Some(written);
  }

  /** One more record: the data file grows by its encoding. */
  lemma LogStep(k: nat, n: nat)
    requires k < n + 2 <= MaxInt32 + 1
    ensures Log(k + 1, n) == Log(k, n) + Encode(Expected(k, n))
  {
    assert RecordAt(n)(k) == Encode(Expected(k, n));
  }

  /** Record number k ends where record number k + 1 starts. */
  lemma LogStepSize(k: nat, n: nat)
    requires k < n + 2 <= MaxInt32 + 1
    ensures Offset(k, n) + |Encode(Expected(k, n))| == Offset(k + 1, n)
  {
    ExpectedSize(k, n);
  }

  /**
   * Offsets strictly increase with the record number: record i lies wholly
   * before the start of any later record j (or the end of the file).
   */
  lemma RecordPrecedes(i: nat, j: nat, n: nat)
    requires i < j <= n + 2 <= MaxInt32 + 1
    ensures Offset(i, n) + |Encode(Expected(i, n))| <= Offset(j, n)
    ensures Offset(i, n) < Offset(j, n)
  {
    ExpectedSize(i, n);
  }

  /** What capture leaves behind when the call for record number k is the first to fail. */
  lemma OutcomeAtFault(n: nat, env: CaptureEnv, k: nat)
    requires n < MaxInt32 && k <= n + 1
    requires !env.createIndexFails && !env.createDataFails
    requires NoFaultBefore(env, k)
    requires FaultFor(env, k) != NoFault
    ensures CaptureOutcome(n, env)
            == (Some(IoError(if FaultFor(env, k) == StatFault then Stat else Write)), Some(Log(k, n)), Some([]))
  {
    var f := FirstFault(env, 0, n);
    assert f < k ==> FaultFor(env, f) == NoFault;
    assert k < f ==> FaultFor(env, k) == NoFault;
    assert f == k;
  }

  /** What capture leaves behind when every record was written. */
  lemma OutcomeAfterWrites(n: nat, env: CaptureEnv)
    requires n < MaxInt32
    requires !env.createIndexFails && !env.createDataFails
    requires NoFaultBefore(env, n + 2)
    ensures CaptureOutcome(n, env)
            == if env.saveFails then (Some(IoError(Write)), Some(Log(n + 2, n)), Some([]))
               else (None, Some(Log(n + 2, n)), Some(EncodeSnapshot(Canonical(n))))
  {
    var f := FirstFault(env, 0, n);
    assert f <= n + 1 ==> FaultFor(env, f) == NoFault;
  }

  /** A capture succeeds exactly when no create, stat, write or save call fails. */
  lemma CaptureSucceedsIff(n: nat, env: CaptureEnv)
    requires n < MaxInt32
    ensures CaptureOutcome(n, env).0.None?
            <==> !env.createIndexFails && !env.createDataFails && !env.saveFails
                 && forall k :: 0 <= k <= n + 1 ==> FaultFor(env, k) == NoFault
  {
    if !env.createIndexFails && !env.createDataFails {
      var f := FirstFault(env, 0, n);
      if f <= n + 1 {
        assert FaultFor(env, f) != NoFault;
      }
    }
  }

  // ---------------------------------------------------------------------
  // What a completed capture guarantees.
  // ---------------------------------------------------------------------

  /** The saved listing is ascending by record number and lists the final index. */
  lemma CanonicalListing(n: nat, m: map<Int32, Int64>)
    requires n < MaxInt32 && IndexedUpTo(m, n + 2, n)
    ensures StrictlyAscending(Canonical(n))
    ensures Represents(Canonical(n), m)
  {
    var l := Canonical(n);
    forall k | k in m ensures k in KeysOf(l) {
      assert l[k].key == k;
    }
  }

  /** The only ascending listing of the final index is `Canonical(n)`. */
  lemma FinalListing(n: nat, entries: seq<IndexRecord>, m: map<Int32, Int64>)
    requires n < MaxInt32
    requires StrictlyAscending(entries) && Represents(entries, m) && IndexedUpTo(m, n + 2, n)
    ensures entries == Canonical(n)
  {
    CanonicalListing(n, m);
    AscendingListingUnique(entries, Canonical(n), m);
  }

  // ---------------------------------------------------------------------
  // Files made of consecutive pieces, whatever the pieces are.
  // ---------------------------------------------------------------------

  /** Pieces 0 to k - 1 of `rec`, one after the other. */
  function Concat(k: nat, rec: nat -> seq<Byte>): (r: seq<Byte>)
  {
    if k == 0 then [] else Concat(k - 1, rec) + rec(k - 1)
  }

  /** `d` holds pieces 0 to k - 1, piece i at offset off(i), and ends where piece k would start. */
  ghost predicate Placed(d: seq<Byte>, k: nat, off: nat -> nat, rec: nat -> seq<Byte>)
  {
    && |d| == off(k)
    && forall i {:trigger BytesAt(d, off(i), rec(i))} :: 0 <= i < k ==> BytesAt(d, off(i), rec(i))
  }

  /** Pieces 0 to k - 1 start at offset 0 and follow each other without gaps. */
  ghost predicate Adjacent(k: nat, off: nat -> nat, rec: nat -> seq<Byte>)
  {
    && off(0) == 0
    && (forall i :: 0 <= i < k ==> off(i) + |rec(i)| == off(i + 1))
    && (forall i, j :: 0 <= i <= j <= k ==> off(i) <= off(j))
  }

  lemma BytesAtEnd(d: seq<Byte>, e: seq<Byte>)
    ensures BytesAt(d + e, |d|, e)
  {
    assert (d + e)[|d|..|d| + |e|] == e;
  }

  lemma BytesAtPrefix(data: seq<Byte>, offset: int, e: seq<Byte>, len: nat)
    requires BytesAt(data, offset, e) && offset + |e| <= len <= |data|
    ensures BytesAt(data[..len], offset, e)
  {
    assert data[..len][offset..offset + |e|] == data[offset..offset + |e|];
  }

  /** A string whose bytes from `len` on are `e` and whose first `len` bytes are `p` is p + e. */
  lemma SplitLast(d: seq<Byte>, len: nat, e: seq<Byte>, p: seq<Byte>)
    requires len + |e| == |d| && BytesAt(d, len, e) && d[..len] == p
    ensures d == p + e
  {
    assert d == d[..len] + d[len..len + |e|];
  }

  /** Appending piece k keeps every earlier piece in place. */
  lemma PlacedStep(d: seq<Byte>, k: nat, off: nat -> nat, rec: nat -> seq<Byte>)
    requires Placed(d, k, off, rec) && off(k) + |rec(k)| == off(k + 1)
    ensures Placed(d + rec(k), k + 1, off, rec)
  {
    forall i | 0 <= i < k ensures BytesAt(d + rec(k), off(i), rec(i)) {
      BytesAtAppend(d, off(i), rec(i), rec(k));
    }
    BytesAtEnd(d, rec(k));
  }

  /** Dropping the last piece leaves a file of the pieces before it. */
  lemma PlacedPrefix(d: seq<Byte>, k: nat, bound: nat, off: nat -> nat, rec: nat -> seq<Byte>)
    requires 0 < k <= bound && Placed(d, k, off, rec) && Adjacent(bound, off, rec)
    ensures Placed(d[..off(k - 1)], k - 1, off, rec)
  {
    var len := off(k - 1);
    forall i | 0 <= i < k - 1 ensures BytesAt(d[..len], off(i), rec(i)) {
      assert off(i) + |rec(i)| == off(i + 1) <= len;
      BytesAtPrefix(d, off(i), rec(i), len);
    }
  }

  /** A file holding adjacent pieces 0 to k - 1 is their concatenation. */
  lemma {:induction false} PlacedIsConcat(d: seq<Byte>, k: nat, bound: nat, off: nat -> nat, rec: nat -> seq<Byte>)
    requires k <= bound && Placed(d, k, off, rec) && Adjacent(bound, off, rec)
    ensures d == Concat(k, rec)
    decreases k
  {
    if k > 0 {
      var len := off(k - 1);
      PlacedPrefix(d, k, bound, off, rec);
      PlacedIsConcat(d[..len], k - 1, bound, off, rec);
      SplitLast(d, len, rec(k - 1), Concat(k - 1, rec));
    }
  }

  /** The concatenation of adjacent pieces holds each at its offset. */
  lemma {:induction false} ConcatPlaced(k: nat, bound: nat, off: nat -> nat, rec: nat -> seq<Byte>)
    requires k <= bound && Adjacent(bound, off, rec)
    ensures Placed(Concat(k, rec), k, off, rec)
    decreases k
  {
    if k > 0 {
      ConcatPlaced(k - 1, bound, off, rec);
      PlacedStep(Concat(k - 1, rec), k - 1, off, rec);
    }
  }

  // ---------------------------------------------------------------------
  // The data file as such a file.
  // ---------------------------------------------------------------------

  /** Capture's records are adjacent, starting at offset 0. */
  lemma RecordsAdjacent(n: nat)
    requires n < MaxInt32
    ensures Adjacent(n + 2, OffsetAt(n), RecordAt(n))
  {
    forall i | 0 <= i < n + 2 ensures Offset(i, n) + |RecordAt(n)(i)| == Offset(i + 1, n) {
      LogStepSize(i, n);
    }
  }

  /** Appending record number k to a file laid out as records 0 to k - 1. */
  lemma LayoutStep(d: seq<Byte>, k: nat, n: nat)
    requires k <= n + 1 <= MaxInt32
    requires Layout(d, k, n)
    ensures Layout(d + Encode(Expected(k, n)), k + 1, n)
  {
    LogStepSize(k, n);
    assert RecordAt(n)(k) == Encode(Expected(k, n));
    PlacedStep(d, k, OffsetAt(n), RecordAt(n));
  }

  /** Only one file is laid out as records 0 to k - 1: the log of those writes. */
  lemma LayoutIsLog(d: seq<Byte>, k: nat, n: nat)
    requires k <= n + 2 <= MaxInt32 + 1
    requires Layout(d, k, n)
    ensures d == Log(k, n)
  {
    RecordsAdjacent(n);
    PlacedIsConcat(d, k, n + 2, OffsetAt(n), RecordAt(n));
  }

  /** Record number i sits in the final data file at offset Offset(i, n). */
  lemma RecordInLog(n: nat, i: nat)
    requires i <= n + 1 <= MaxInt32
    ensures EncodedAt(Log(n + 2, n), Offset(i, n), Expected(i, n))
  {
    RecordsAdjacent(n);
    ConcatPlaced(n + 2, n + 2, OffsetAt(n), RecordAt(n));
    assert BytesAt(Log(n + 2, n), OffsetAt(n)(i), RecordAt(n)(i));
  }

  /**
   * After a successful capture the index file reads back as n + 2 entries,
   * entry i is record number i, the data file holds the record written under
   * that number at the entry's offset (so decoding from there yields it), and
   * the next record starts right where this one ends; the last one ends at
   * the end of the file.
   */
  lemma CaptureLayout(n: nat, env: CaptureEnv, i: nat)
    requires n < MaxInt32 && i <= n + 1
    requires CaptureOutcome(n, env).0.None?
    ensures var (_, data, index) := CaptureOutcome(n, env);
      data.Some? && index.Some? && DecodeSnapshot(index.value).Ok?
      && var l := DecodeSnapshot(index.value).value;
      |l| == n + 2 && l[i].key == i
      && EncodedAt(data.value, l[i].value, Expected(i, n))
      && Decode(data.value[l[i].value..]) == Ok((Expected(i, n), |Encode(Expected(i, n))|))
      && (if i <= n then l[i + 1].value == l[i].value + |Encode(Expected(i, n))|
          else |data.value| == l[i].value + |Encode(Expected(i, n))|)
  {
    CaptureSucceedsIff(n, env);
    OutcomeAfterWrites(n, env);
    SnapshotRoundTrip(Canonical(n));
    RecordInLog(n, i);
    DecodeAt(Log(n + 2, n), Offset(i, n), Expected(i, n));
    ExpectedSize(i, n);
  }
}
