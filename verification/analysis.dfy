/**
 * analysis: opens the index and data files capture left behind, rebuilds
 * the ordered index from the saved entry list, and reports the record
 * stored under sampled record numbers. The random record numbers come in as
 * `picks`; what would be printed is returned as `Report` values.
 */
module Analysis {
  import opened Common
  import opened Codec
  import opened BTree
  import Capture

  /** Number of random record numbers analysis reports on. */
  const MaxDisplaySamples: nat := 20

  /** What reportData does for one record number. */
  datatype Report =
    | NotFound(key: Int32)
    | SeekFailed(key: Int32, offset: Int64)
    | DecodeFailed(key: Int32, offset: Int64, reason: DecodeError)
    | ShowBegin(key: Int32, offset: Int64, className: GoString, methodName: GoString, methodType: GoString)
    | ShowChange(key: Int32, offset: Int64, valueOld: Int64, valueNew: Int64)
    | ShowEnd(key: Int32, offset: Int64, className: GoString, methodName: GoString, methodType: GoString)
    | Unrecognized(key: Int32, offset: Int64, rtype: Byte)
    | Panicked(key: Int32, offset: Int64)

  /** The error reportData returns; showing a record (or panicking) returns none. */
  function ErrorOf(r: Report): Option<Error>
  {
    match r
    case NotFound(k) => Some(KeyNotFound(k))
    case SeekFailed(_, _) => Some(IoError(Seek))
    case DecodeFailed(_, _, e) => Some(DecodeFailure(e))
    case _ => None
  }

  /** reportData returned normally and without an error. */
  predicate Passes(r: Report)
  {
    !r.Panicked? && ErrorOf(r).None?
  }

  predicate IsTag(b: Byte)
  {
    b == RTypeBeginFrame || b == RTypeI64Change || b == RTypeEndFrame
  }

  /** The record held by the wrapper is the struct its type byte announces. */
  predicate TagMatches(w: RecordWrapper)
  {
    || (w.rtype == RTypeBeginFrame && w.record.BeginFrame?)
    || (w.rtype == RTypeI64Change && w.record.I64Change?)
    || (w.rtype == RTypeEndFrame && w.record.EndFrame?)
  }

  /**
   * The switch on the wrapper's type byte. Each known tag asserts the struct
   * type of the record, which panics when the record is another struct; an
   * unknown tag is reported and is not an error.
   */
  function Dispatch(key: Int32, offset: Int64, w: RecordWrapper): (r: Report)
    ensures r.key == key && ErrorOf(r).None?
    ensures r.Unrecognized? <==> !IsTag(w.rtype)
    ensures r.Unrecognized? ==> r == Unrecognized(key, offset, w.rtype)
    ensures r.Panicked? <==> IsTag(w.rtype) && !TagMatches(w)
    ensures r.ShowBegin? <==> w.rtype == RTypeBeginFrame && w.record.BeginFrame?
    ensures r.ShowChange? <==> w.rtype == RTypeI64Change && w.record.I64Change?
    ensures r.ShowEnd? <==> w.rtype == RTypeEndFrame && w.record.EndFrame?
    ensures r.ShowBegin? || r.ShowEnd? ==>
      r.offset == offset && r.className == w.record.className
      && r.methodName == w.record.methodName && r.methodType == w.record.methodType
    ensures r.ShowChange? ==>
      r.offset == offset && r.valueOld == w.record.valueOld && r.valueNew == w.record.valueNew
  {
    TagsDistinct();
    if w.rtype == RTypeBeginFrame then
      match w.record
      case BeginFrame(_, c, m, t) => ShowBegin(key, offset, c, m, t)
      case _ => Panicked(key, offset)
    else if w.rtype == RTypeI64Change then
      match w.record
      case I64Change(_, o, v) => ShowChange(key, offset, o, v)
      case _ => Panicked(key, offset)
    else if w.rtype == RTypeEndFrame then
      match w.record
      case EndFrame(_, c, m, t) => ShowEnd(key, offset, c, m, t)
      case _ => Panicked(key, offset)
    else
      Unrecognized(key, offset, w.rtype)
  }

  /** What a decoder positioned at byte `offset` of `data` reads; past the end, nothing. */
  function From(data: seq<Byte>, offset: nat): (r: seq<Byte>)
    ensures |r| == if offset <= |data| then |data| - offset else 0
    ensures forall i :: 0 <= i < |r| ==> r[i] == data[offset + i]
  {
    if offset <= |data| then data[offset..] else []
  }

  /**
   * reportData against index contents `m` and data file `data`: an absent
   * key is an error, a negative offset fails the seek, and otherwise the
   * wrapper decoded at the offset is dispatched on.
   */
  function ReportOf(m: map<Int32, Int64>, data: seq<Byte>, key: Int32): (r: Report)
    ensures r.key == key
    ensures r.NotFound? <==> key !in m
    ensures key in m ==> !r.NotFound? && r.offset == m[key]
    ensures r.SeekFailed? <==> key in m && m[key] < 0
    ensures r.DecodeFailed? <==> key in m && m[key] >= 0 && Decode(From(data, m[key])).Err?
    ensures r.DecodeFailed? ==> r.reason == Decode(From(data, m[key])).error
    ensures key in m && m[key] >= 0 && Decode(From(data, m[key])).Ok? ==>
      r == Dispatch(key, m[key], Decode(From(data, m[key])).value.0)
  {
    if key !in m then NotFound(key)
    else
      var offset := m[key];
      if offset < 0 then SeekFailed(key, offset)
      else
        match Decode(From(data, offset))
        case Err(e) => DecodeFailed(key, offset, e)
        case Ok((w, _)) => Dispatch(key, offset, w)
  }

  /** reportData: look the record number up in the loaded tree and decode at its offset. */
  method ReportData(recordNumber: Int32, tree: OrderedIndex, data: seq<Byte>) returns (r: Report)
    requires tree.Valid()
    ensures r == ReportOf(tree.contents, data, recordNumber)
  {
    var item := tree.Get(recordNumber);
    if item.None? {
      return NotFound(recordNumber);
    }
    var offset := item.value;
    if offset < 0 {
      return SeekFailed(recordNumber, offset);
    }
    var decoded := Decode(From(data, offset));
    if decoded.Err? {
      return DecodeFailed(recordNumber, offset, decoded.error);
    }
    r := Dispatch(recordNumber, offset, decoded.value.0);
  }

  /** Inserting the first remaining entry is the first step of PutAll. */
  lemma PutAllStep(m: map<Int32, Int64>, s: seq<IndexRecord>, i: nat)
    requires i < |s|
    ensures PutAll(m, s[i..]) == PutAll(m[s[i].key := s[i].value], s[i + 1..])
  {
    assert s[i..][1..] == s[i + 1..];
  }

  /**
   * loadBTree: decodes the saved entry list and inserts its entries in list
   * order into a new tree, so a later entry replaces an earlier one with the
   * same key. A decode failure returns no tree and the error.
   */
  method LoadBTree(indexFile: seq<Byte>) returns (tree: OrderedIndex?, err: Option<Error>)
    ensures err.Some? <==> DecodeSnapshot(indexFile).Err?
    ensures err.Some? ==> tree == null && err.value == DecodeFailure(DecodeSnapshot(indexFile).error)
    ensures err.None? ==> tree != null && fresh(tree) && tree.Valid()
                          && tree.contents == MapOfList(DecodeSnapshot(indexFile).value)
  {
    var decoded := DecodeSnapshot(indexFile);
    if decoded.Err? {
      return null, Some(DecodeFailure(decoded.error));
    }
    var records := decoded.value;
    var t := new OrderedIndex();
    assert records[0..] == records;
    var i := 0;
    while i < |records|
      invariant 0 <= i <= |records|
      invariant t.Valid()
      invariant PutAll(t.contents, records[i..]) == MapOfList(records)
      modifies t
    {
      PutAllStep(t.contents, records, i);
      var _ := t.ReplaceOrInsert(IndexRecord(records[i].key, records[i].value));
      i := i + 1;
    }
    assert records[i..] == [];
    tree, err := t, None;
  }

  /**
   * saveBtree, then loadBTree of what it wrote: the loaded tree holds the
   * same entries as the saved one, in the same ascending order.
   */
  method SaveThenLoad(tree: OrderedIndex) returns (loaded: OrderedIndex?, err: Option<Error>)
    requires tree.Valid()
    ensures err.None? && loaded != null && loaded.Valid()
    ensures loaded.contents == tree.contents && loaded.entries == tree.entries
  {
    var saveErr, written := Capture.SaveBtree(tree, false);
    loaded, err := LoadBTree(written);
    var l := DecodeSnapshot(written).value;
    MapOfAscending(l);
    RepresentsUnique(l, MapOfList(l), tree.contents);
    AscendingListingUnique(loaded.entries, tree.entries, tree.contents);
  }

  /** reportData as a function of the record number, against fixed files. */
  function ReportAgainst(m: map<Int32, Int64>, data: seq<Byte>): Int32 -> Report
  {
    (key: Int32) => ReportOf(m, data, key)
  }

  /**
   * The sampling loop: the report for each pick, up to and including the
   * first one that fails or panics.
   */
  function Sample(report: Int32 -> Report, picks: seq<Int32>): (rs: seq<Report>)
    ensures |rs| <= |picks|
    ensures forall i :: 0 <= i < |rs| ==> rs[i] == report(picks[i])
    ensures forall i :: 0 <= i < |rs| - 1 ==> Passes(rs[i])
    ensures |rs| < |picks| ==> |rs| > 0 && !Passes(rs[|rs| - 1])
    decreases |picks|
  {
    if picks == [] then []
    else
      var r := report(picks[0]);
      if !Passes(r) then [r]
      else
        var tail := Sample(report, picks[1..]);
        assert forall i :: 1 <= i < |tail| + 1 ==> ([r] + tail)[i] == tail[i - 1];
        [r] + tail
  }

  /** How analysis ends: returning nil, returning an error, or a panic. */
  datatype Status = Completed | Failed(error: Error) | Crashed

  /**
   * The reporting part of analysis, with `report` giving reportData's
   * outcome per record number. The sampled reports stop at the first error
   * or panic. The two closing probes (record numbers 0 and maxRecords + 1)
   * have their errors discarded, but a panic in either still ends the run.
   */
  function Probes(report: Int32 -> Report, picks: seq<Int32>, maxRecords: Int32): (r: (Status, seq<Report>))
    requires maxRecords < MaxInt32
    ensures |r.1| <= |picks| + 2
    ensures r.0 == Completed ==>
      && |r.1| == |picks| + 2
      && (forall i :: 0 <= i < |picks| ==> r.1[i] == report(picks[i]) && Passes(r.1[i]))
      && r.1[|picks|] == report(0) && r.1[|picks| + 1] == report(maxRecords + 1)
    ensures r.0.Failed? ==> r.1 != [] && ErrorOf(r.1[|r.1| - 1]) == Some(r.0.error)
    ensures r.0 == Crashed ==> r.1 != [] && r.1[|r.1| - 1].Panicked?
  {
    var rs := Sample(report, picks);
    if |rs| > 0 && !Passes(rs[|rs| - 1]) then
      var last := rs[|rs| - 1];
      (if last.Panicked? then Crashed else Failed(ErrorOf(last).value), rs)
    else
      var first := report(0);
      if first.Panicked? then (Crashed, rs + [first])
      else
        var final := report(maxRecords + 1);
        (if final.Panicked? then Crashed else Completed, rs + [first, final])
  }

  /**
   * analysis: the status and the reports of the whole run. Either file
   * failing to open, or the index failing to decode, ends it before any
   * report; otherwise the probes run against the loaded index.
   */
  function AnalysisOutcome(dataFile: Option<seq<Byte>>, indexFile: Option<seq<Byte>>,
                           picks: seq<Int32>, maxRecords: Int32): (r: (Status, seq<Report>))
    requires maxRecords < MaxInt32
    ensures r.1 != [] ==> dataFile.Some? && indexFile.Some? && DecodeSnapshot(indexFile.value).Ok?
    ensures r.0 == Completed ==> |r.1| == |picks| + 2
  {
    if indexFile.None? || dataFile.None? then (Failed(IoError(Open)), [])
    else
      match DecodeSnapshot(indexFile.value)
      case Err(e) => (Failed(DecodeFailure(e)), [])
      case Ok(records) => Probes(ReportAgainst(MapOfList(records), dataFile.value), picks, maxRecords)
  }

  /** The sample loop's reports are fixed by which of the picks pass. */
  lemma {:induction false} SampleIs(report: Int32 -> Report, picks: seq<Int32>, rs: seq<Report>)
    requires |rs| <= |picks|
    requires forall i :: 0 <= i < |rs| ==> rs[i] == report(picks[i])
    requires forall i :: 0 <= i < |rs| - 1 ==> Passes(rs[i])
    requires |rs| < |picks| ==> |rs| > 0 && !Passes(rs[|rs| - 1])
    ensures Sample(report, picks) == rs
    decreases |picks|
  {
    if picks != [] {
      var r := report(picks[0]);
      assert rs[0] == r;
      if !Passes(r) {
        assert |rs| == 1;
      } else {
        var tail := rs[1..];
        assert forall i :: 0 <= i < |tail| ==> tail[i] == rs[i + 1];
        SampleIs(report, picks[1..], tail);
        assert rs == [r] + tail;
      }
    }
  }

  /**
   * analysis over the files (None: the open fails). `picks` are the
   * random record numbers, one per sample.
   */
  method Analysis(dataFile: Option<seq<Byte>>, indexFile: Option<seq<Byte>>,
                  picks: seq<Int32>, maxRecords: Int32)
    returns (status: Status, reports: seq<Report>)
    requires |picks| == MaxDisplaySamples
    requires 0 <= maxRecords < MaxInt32
    ensures (status, reports) == AnalysisOutcome(dataFile, indexFile, picks, maxRecords)
  {
    if indexFile.None? {
      return Failed(IoError(Open)), [];
    }
    if dataFile.None? {
      return Failed(IoError(Open)), [];
    }
    var loaded, err := LoadBTree(indexFile.value);
    if err.Some? {
      return Failed(err.value), [];
    }
    status, reports := ReportAll(loaded, dataFile.value, picks, maxRecords);
  }

  /** The sample loop of analysis: reportData for each pick until one fails or panics. */
  method SampleLoop(tree: OrderedIndex, data: seq<Byte>, picks: seq<Int32>) returns (reports: seq<Report>)
    requires tree.Valid()
    requires |picks| == MaxDisplaySamples
    ensures reports == Sample(ReportAgainst(tree.contents, data), picks)
  {
    ghost var report := ReportAgainst(tree.contents, data);
    reports := [];
    var ix := 0;
    while ix < MaxDisplaySamples
      invariant 0 <= ix <= MaxDisplaySamples
      invariant |reports| == ix
      invariant forall i :: 0 <= i < ix ==> reports[i] == report(picks[i]) && Passes(reports[i])
    {
      var r := ReportData(picks[ix], tree, data);
      assert r == report(picks[ix]);
      reports := reports + [r];
      if r.Panicked? || ErrorOf(r).Some? {
        SampleIs(report, picks, reports);
        return;
      }
      ix := ix + 1;
    }
    SampleIs(report, picks, reports);
  }

  /** The sample loop and the two closing probes of analysis, against the loaded tree. */
  method ReportAll(tree: OrderedIndex, data: seq<Byte>, picks: seq<Int32>, maxRecords: Int32)
    returns (status: Status, reports: seq<Report>)
    requires tree.Valid()
    requires |picks| == MaxDisplaySamples
    requires 0 <= maxRecords < MaxInt32
    ensures (status, reports) == Probes(ReportAgainst(tree.contents, data), picks, maxRecords)
  {
    var sampled := SampleLoop(tree, data, picks);
    if |sampled| > 0 && !Passes(sampled[|sampled| - 1]) {
      var last := sampled[|sampled| - 1];
      return if last.Panicked? then Crashed else Failed(ErrorOf(last).value), sampled;
    }
    var first := ReportData(0, tree, data);
    if first.Panicked? {
      return Crashed, sampled + [first];
    }
    var final := ReportData(maxRecords + 1, tree, data);
    reports := sampled + [first, final];
    status := if final.Panicked? then Crashed else Completed;
  }

  // ---------------------------------------------------------------------
  // Reading back what capture wrote.
  // ---------------------------------------------------------------------

  /** What analysis reports for record number k of a capture of n change records. */
  function ExpectedReport(k: nat, n: nat): (r: Report)
    requires k <= n + 1 <= MaxInt32
    ensures Passes(r)
  {
    if k == 0 then ShowBegin(0, 0, Capture.ClassName, Capture.MethodName, Capture.MethodType)
    else if k <= n then ShowChange(k, Capture.Offset(k, n), k - 1, k)
    else ShowEnd(k, Capture.Offset(k, n), Capture.ClassName, Capture.MethodName, Capture.MethodType)
  }

  /** The files of a successful capture. */
  lemma CapturedFiles(n: nat, env: Capture.CaptureEnv)
    requires n < MaxInt32 && Capture.CaptureOutcome(n, env).0.None?
    ensures Capture.CaptureOutcome(n, env).1 == Some(Capture.Log(n + 2, n))
    ensures Capture.CaptureOutcome(n, env).2.Some?
    ensures DecodeSnapshot(Capture.CaptureOutcome(n, env).2.value) == Ok(Capture.Canonical(n))
  {
    SnapshotRoundTrip(Capture.Canonical(n));
  }

  /** Dispatching on the record capture wrote under number k shows it. */
  lemma DispatchExpected(k: nat, n: nat)
    requires k <= n + 1 <= MaxInt32
    ensures Dispatch(k, Capture.Offset(k, n), Capture.Expected(k, n)) == ExpectedReport(k, n)
  {
  }

  /** The index capture saved, loaded back, maps record number k to its offset. */
  lemma LoadedCanonical(n: nat, k: nat)
    requires n < MaxInt32 && k <= n + 1
    ensures k in MapOfList(Capture.Canonical(n))
    ensures MapOfList(Capture.Canonical(n))[k] == Capture.Offset(k, n)
  {
    var l := Capture.Canonical(n);
    assert StrictlyAscending(l);
    MapOfAscending(l);
    assert l[k].key == k;
  }

  /**
   * Every record number capture wrote is found by reportData after a
   * successful capture, at its offset, and shows the record written under it.
   */
  lemma QueryAfterCapture(n: nat, env: Capture.CaptureEnv, k: nat)
    requires n < MaxInt32 && k <= n + 1
    requires Capture.CaptureOutcome(n, env).0.None?
    ensures var (_, data, index) := Capture.CaptureOutcome(n, env);
      data.Some? && index.Some? && DecodeSnapshot(index.value).Ok?
      && ReportOf(MapOfList(DecodeSnapshot(index.value).value), data.value, k) == ExpectedReport(k, n)
  {
    CapturedFiles(n, env);
    LoadedCanonical(n, k);
    var d := Capture.Log(n + 2, n);
    Capture.RecordInLog(n, k);
    DecodeAt(d, Capture.Offset(k, n), Capture.Expected(k, n));
    assert From(d, Capture.Offset(k, n)) == d[Capture.Offset(k, n)..];
    DispatchExpected(k, n);
  }

  /** When every pick passes, the loop reports on all of them. */
  lemma SampleAllPass(report: Int32 -> Report, picks: seq<Int32>)
    requires forall i :: 0 <= i < |picks| ==> Passes(report(picks[i]))
    ensures Sample(report, picks) == seq(|picks|, i requires 0 <= i < |picks| => report(picks[i]))
  {
    SampleIs(report, picks, seq(|picks|, i requires 0 <= i < |picks| => report(picks[i])));
  }

  /** When every report passes and neither closing probe panics, the run completes. */
  lemma ProbesAllPass(report: Int32 -> Report, picks: seq<Int32>, maxRecords: Int32)
    requires maxRecords < MaxInt32
    requires forall i :: 0 <= i < |picks| ==> Passes(report(picks[i]))
    requires !report(0).Panicked? && !report(maxRecords + 1).Panicked?
    ensures Probes(report, picks, maxRecords)
      == (Completed, seq(|picks|, i requires 0 <= i < |picks| => report(picks[i]))
                     + [report(0), report(maxRecords + 1)])
  {
    SampleAllPass(report, picks);
    var rs := Sample(report, picks);
    assert |rs| > 0 ==> Passes(rs[|rs| - 1]);
  }

  /**
   * analysis over files in which every record number 0 to n + 1 shows its
   * expected record, with every pick in 1 to n: it completes and reports
   * each pick, then the begin and the end frame.
   */
  lemma AnalysisOfFiles(data: seq<Byte>, index: seq<Byte>, picks: seq<Int32>, n: Int32)
    requires 0 <= n < MaxInt32
    requires DecodeSnapshot(index).Ok?
    requires forall k: nat :: k <= n + 1 ==>
      ReportOf(MapOfList(DecodeSnapshot(index).value), data, k) == ExpectedReport(k, n)
    requires forall i :: 0 <= i < |picks| ==> 1 <= picks[i] <= n
    ensures AnalysisOutcome(Some(data), Some(index), picks, n)
      == (Completed, seq(|picks|, i requires 0 <= i < |picks| => ExpectedReport(picks[i], n))
                     + [ExpectedReport(0, n), ExpectedReport(n + 1, n)])
  {
    var m := MapOfList(DecodeSnapshot(index).value);
    var report := ReportAgainst(m, data);
    assert AnalysisOutcome(Some(data), Some(index), picks, n) == Probes(report, picks, n);
    assert forall i :: 0 <= i < |picks| ==> report(picks[i]) == ExpectedReport(picks[i], n);
    SampleAllPass(report, picks);
    assert report(0) == ExpectedReport(0, n);
    assert report(n + 1) == ExpectedReport(n + 1, n);
    ProbesAllPass(report, picks, n);
    assert seq(|picks|, i requires 0 <= i < |picks| => report(picks[i]))
        == seq(|picks|, i requires 0 <= i < |picks| => ExpectedReport(picks[i], n));
  }

  /**
   * analysis after a successful capture of maxRecords change records, with
   * every pick in 1 to maxRecords as randomPal promises: it completes and
   * shows every sampled change record, then the begin and the end frame.
   */
  lemma AnalysisAfterCapture(n: Int32, env: Capture.CaptureEnv, picks: seq<Int32>)
    requires 0 <= n < MaxInt32
    requires Capture.CaptureOutcome(n, env).0.None?
    requires forall i :: 0 <= i < |picks| ==> 1 <= picks[i] <= n
    ensures var (_, data, index) := Capture.CaptureOutcome(n, env);
      data.Some? && index.Some?
      && AnalysisOutcome(data, index, picks, n)
         == (Completed, seq(|picks|, i requires 0 <= i < |picks| => ExpectedReport(picks[i], n))
                        + [ExpectedReport(0, n), ExpectedReport(n + 1, n)])
  {
    CapturedFiles(n, env);
    var data := Capture.Log(n + 2, n);
    var index := Capture.CaptureOutcome(n, env).2.value;
    forall k: nat | k <= n + 1
      ensures ReportOf(MapOfList(DecodeSnapshot(index).value), data, k) == ExpectedReport(k, n)
    {
      QueryAfterCapture(n, env, k);
    }
    AnalysisOfFiles(data, index, picks, n);
  }
}
