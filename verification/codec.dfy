/**
 * A stand-in for the gob encoding of the two things the store persists: one
 * RecordWrapper per data-file write, and the ascending list of index entries
 * in the index file. The byte layout is this model's own; what is kept from
 * gob is what the store relies on: every encoding is non-empty, carries the
 * wrapper's type byte, names which registered struct the wrapper holds, and
 * is self-delimiting, so a decoder started at an encoding's first byte stops
 * exactly at its last one whatever follows.
 */
module Codec {
  import opened Common
  import opened Wire

  /** Which registered struct the wrapper's interface field holds. */
  const VariantBeginFrame: Byte := 1
  const VariantEndFrame: Byte := 2
  const VariantI64Change: Byte := 3

  predicate IsVariant(b: Byte)
  {
    b == VariantBeginFrame || b == VariantEndFrame || b == VariantI64Change
  }

  // ---------------------------------------------------------------------
  // Strings: an eight-byte length, then the bytes.
  // ---------------------------------------------------------------------

  function EncodeString(s: GoString): (r: seq<Byte>)
    ensures |r| == 8 + |s|
  {
    EncodeInt64(|s|) + s
  }

  /** Decodes one string; on success also says how many bytes it used. */
  function DecodeString(s: seq<Byte>): (r: Result<(GoString, nat), DecodeError>)
    ensures r.Ok? ==> r.value.1 <= |s| && s[..r.value.1] == EncodeString(r.value.0)
  {
    if |s| < 8 then Err(Truncated)
    else
      var n := ReadLong(s[..8]);
      if n < 0 then Err(Malformed)
      else if |s| - 8 < n then Err(Truncated)
      else
        EncodeOfReadLong(s[..8]);
        assert s[..8 + n] == s[..8] + s[8..8 + n];
        var x: GoString := s[8..8 + n];
        var used: nat := 8 + n;
        Ok((x, used))
  }

  lemma DecodeEncodeString(x: GoString, rest: seq<Byte>)
    ensures DecodeString(EncodeString(x) + rest) == Ok((x, 8 + |x|))
  {
    var s := EncodeString(x) + rest;
    assert s[..8] == EncodeInt64(|x|);
    assert s[8..8 + |x|] == x;
  }

  // ---------------------------------------------------------------------
  // Record wrappers.
  // ---------------------------------------------------------------------

  function EncodeNames(c: GoString, m: GoString, t: GoString): seq<Byte>
  {
    EncodeString(c) + EncodeString(m) + EncodeString(t)
  }

  function EncodeRecord(r: Record): seq<Byte>
  {
    match r
    case BeginFrame(rid, c, m, t) => [VariantBeginFrame, rid] + EncodeNames(c, m, t)
    case EndFrame(rid, c, m, t) => [VariantEndFrame, rid] + EncodeNames(c, m, t)
    case I64Change(rid, o, n) => [VariantI64Change, rid] + EncodeInt64(o) + EncodeInt64(n)
  }

  /** The encoding of one wrapper: non-empty, and it starts with the type byte. */
  function Encode(w: RecordWrapper): (r: seq<Byte>)
    ensures |r| >= 3 && r[0] == w.rtype
  {
    [w.rtype] + EncodeRecord(w.record)
  }

  /** Decodes the three names of a frame record. */
  function DecodeNames(s: seq<Byte>): (r: Result<(GoString, GoString, GoString, nat), DecodeError>)
    ensures r.Ok? ==> r.value.3 <= |s| && s[..r.value.3] == EncodeNames(r.value.0, r.value.1, r.value.2)
  {
    match DecodeString(s)
    case Err(e) => Err(e)
    case Ok((c, n1)) =>
      match DecodeString(s[n1..])
      case Err(e) => Err(e)
      case Ok((m, n2)) =>
        match DecodeString(s[n1 + n2..])
        case Err(e) => Err(e)
        case Ok((t, n3)) =>
          assert s[..n1 + n2 + n3] == s[..n1] + s[n1..][..n2] + s[n1 + n2..][..n3];
          Ok((c, m, t, n1 + n2 + n3))
  }

  lemma DecodeNamesSteps(s: seq<Byte>, c: GoString, n1: nat, m: GoString, n2: nat, t: GoString, n3: nat)
    requires DecodeString(s) == Ok((c, n1))
    requires n1 <= |s| && DecodeString(s[n1..]) == Ok((m, n2))
    requires n1 + n2 <= |s| && DecodeString(s[n1 + n2..]) == Ok((t, n3))
    ensures DecodeNames(s) == Ok((c, m, t, n1 + n2 + n3))
  {
  }

  lemma DecodeNamesOfParts(c: GoString, m: GoString, t: GoString, rest: seq<Byte>)
    ensures var ec, em, et := EncodeString(c), EncodeString(m), EncodeString(t);
            DecodeNames(ec + (em + (et + rest))) == Ok((c, m, t, |ec| + |em| + |et|))
  {
    var ec, em, et := EncodeString(c), EncodeString(m), EncodeString(t);
    var s := ec + (em + (et + rest));
    DecodeEncodeString(c, em + (et + rest));
    DecodeEncodeString(m, et + rest);
    DecodeEncodeString(t, rest);
    assert s[|ec|..] == em + (et + rest);
    assert s[|ec| + |em|..] == et + rest;
    DecodeNamesSteps(s, c, |ec|, m, |em|, t, |et|);
  }

  lemma DecodeEncodeNames(c: GoString, m: GoString, t: GoString, rest: seq<Byte>)
    ensures DecodeNames(EncodeNames(c, m, t) + rest) == Ok((c, m, t, |EncodeNames(c, m, t)|))
  {
    ConcatAssoc(EncodeString(c), EncodeString(m), EncodeString(t), rest);
    DecodeNamesOfParts(c, m, t, rest);
  }

  lemma ConcatAssoc(a: seq<Byte>, b: seq<Byte>, c: seq<Byte>, d: seq<Byte>)
    ensures a + b + c + d == a + (b + (c + d))
  {
  }

  /** The payload of a change record: two int64 values. */
  function DecodeChange(rtype: Byte, rid: Byte, body: seq<Byte>): (r: Result<(RecordWrapper, nat), DecodeError>)
  {
    if |body| < 16 then Err(Truncated)
    else Ok((RecordWrapper(rtype, I64Change(rid, ReadLong(body[..8]), ReadLong(body[8..16]))), 19))
  }

  /** The payload of a frame record: three names. */
  function DecodeFrame(rtype: Byte, variant: Byte, rid: Byte, body: seq<Byte>): (r: Result<(RecordWrapper, nat), DecodeError>)
  {
    match DecodeNames(body)
    case Err(e) => Err(e)
    case Ok((c, m, t, n)) =>
      var rec := if variant == VariantBeginFrame then BeginFrame(rid, c, m, t) else EndFrame(rid, c, m, t);
      Ok((RecordWrapper(rtype, rec), 3 + n))
  }

  /**
   * Decodes one wrapper from the start of `s`; on success also says how many
   * bytes it used. An unregistered struct is UnknownType; a stream that ends
   * early is Truncated; a negative length is Malformed.
   */
  function Decode(s: seq<Byte>): (r: Result<(RecordWrapper, nat), DecodeError>)
    ensures |s| >= 2 && !IsVariant(s[1]) ==> r == Err(UnknownType)
    ensures r.Ok? ==> 3 <= r.value.1 <= |s| && r.value.0.rtype == s[0]
  {
    if |s| < 2 then Err(Truncated)
    else if !IsVariant(s[1]) then Err(UnknownType)
    else if |s| < 3 then Err(Truncated)
    else if s[1] == VariantI64Change then DecodeChange(s[0], s[2], s[3..])
    else DecodeFrame(s[0], s[1], s[2], s[3..])
  }

  lemma DecodeEncodeI64(w: RecordWrapper, rest: seq<Byte>)
    requires w.record.I64Change?
    ensures Decode(Encode(w) + rest) == Ok((w, |Encode(w)|))
  {
    var r := w.record;
    var eo, en := EncodeInt64(r.valueOld), EncodeInt64(r.valueNew);
    assert Encode(w) == [w.rtype, VariantI64Change, r.rid] + eo + en;
    var s := Encode(w) + rest;
    assert s[0] == w.rtype && s[1] == VariantI64Change && s[2] == r.rid;
    var body := s[3..];
    assert body == eo + en + rest;
    assert body[..8] == eo;
    assert body[8..16] == en;
    assert DecodeChange(w.rtype, r.rid, body) == Ok((w, 19));
  }

  /** The bytes after the three header bytes of a frame record. */
  lemma FrameBody(rtype: Byte, variant: Byte, rid: Byte, names: seq<Byte>, rest: seq<Byte>)
    ensures var s := [rtype, variant, rid] + names + rest;
            s[0] == rtype && s[1] == variant && s[2] == rid && s[3..] == names + rest
  {
  }

  lemma FrameShape(w: RecordWrapper)
    requires w.record.BeginFrame? || w.record.EndFrame?
    ensures var r := w.record;
            Encode(w) == [w.rtype, if r.BeginFrame? then VariantBeginFrame else VariantEndFrame, r.rid]
                         + EncodeNames(r.className, r.methodName, r.methodType)
  {
  }

  lemma DecodeEncodeFrame(w: RecordWrapper, rest: seq<Byte>)
    requires w.record.BeginFrame? || w.record.EndFrame?
    ensures Decode(Encode(w) + rest) == Ok((w, |Encode(w)|))
  {
    var r := w.record;
    var c, m, t := r.className, r.methodName, r.methodType;
    var names := EncodeNames(c, m, t);
    var variant := if r.BeginFrame? then VariantBeginFrame else VariantEndFrame;
    FrameShape(w);
    var s := Encode(w) + rest;
    FrameBody(w.rtype, variant, r.rid, names, rest);
    assert s == [w.rtype, variant, r.rid] + names + rest;
    DecodeEncodeNames(c, m, t, rest);
    var body := names + rest;
    assert DecodeFrame(w.rtype, variant, r.rid, body) == Ok((w, 3 + |names|));
    assert Decode(s) == DecodeFrame(w.rtype, variant, r.rid, body);
  }

  /** Round trip: an encoding decodes to its wrapper and uses exactly its own bytes. */
  lemma DecodeEncode(w: RecordWrapper, rest: seq<Byte>)
    ensures Decode(Encode(w) + rest) == Ok((w, |Encode(w)|))
  {
    if w.record.I64Change? {
      DecodeEncodeI64(w, rest);
    } else {
      DecodeEncodeFrame(w, rest);
    }
  }

  lemma DecodeUsesEncodingI64(s: seq<Byte>)
    requires Decode(s).Ok? && s[1] == VariantI64Change
    ensures var (w, n) := Decode(s).value; n == |Encode(w)| && s[..n] == Encode(w)
  {
    var body := s[3..];
    assert Decode(s) == DecodeChange(s[0], s[2], body);
    var a, b := body[..8], body[8..16];
    EncodeOfReadLong(a);
    EncodeOfReadLong(b);
    var w := RecordWrapper(s[0], I64Change(s[2], ReadLong(a), ReadLong(b)));
    assert Decode(s).value == (w, 19);
    assert Encode(w) == [s[0], s[1], s[2]] + a + b;
    assert s[..19] == [s[0], s[1], s[2]] + a + b;
  }

  lemma DecodeUsesEncodingFrame(s: seq<Byte>)
    requires Decode(s).Ok? && s[1] != VariantI64Change
    ensures var (w, n) := Decode(s).value; n == |Encode(w)| && s[..n] == Encode(w)
  {
    var body := s[3..];
    assert Decode(s) == DecodeFrame(s[0], s[1], s[2], body);
    var (c, m, t, k) := DecodeNames(body).value;
    var (w, n) := Decode(s).value;
    assert n == 3 + k;
    FrameShape(w);
    HeaderSplit(s, k);
  }

  /** The first 3 + k bytes: the three header bytes, then k bytes of body. */
  lemma HeaderSplit(s: seq<Byte>, k: nat)
    requires 3 + k <= |s|
    ensures s[..3 + k] == [s[0], s[1], s[2]] + s[3..][..k]
  {
  }

  /**
   * The converse: whatever a successful decode returns, the bytes it used are
   * exactly the encoding of that wrapper.
   */
  lemma DecodeUsesEncoding(s: seq<Byte>)
    requires Decode(s).Ok?
    ensures var (w, n) := Decode(s).value; n == |Encode(w)| && s[..n] == Encode(w)
  {
    if s[1] == VariantI64Change {
      DecodeUsesEncodingI64(s);
    } else {
      DecodeUsesEncodingFrame(s);
    }
  }

  /**
   * Prefix freedom: no encoding is a proper prefix of another, so the
   * encoding is also injective.
   */
  lemma EncodingPrefixFree(w1: RecordWrapper, w2: RecordWrapper, rest: seq<Byte>)
    requires Encode(w2) == Encode(w1) + rest
    ensures w1 == w2 && rest == []
  {
    DecodeEncode(w1, rest);
    DecodeEncode(w2, []);
    assert Encode(w2) + [] == Encode(w2);
  }

  /** `data` holds the bytes `e` starting at byte `offset`. */
  ghost predicate BytesAt(data: seq<Byte>, offset: int, e: seq<Byte>)
  {
    0 <= offset && offset + |e| <= |data| && data[offset..offset + |e|] == e
  }

  /** `data` holds the encoding of `w` starting at byte `offset`. */
  ghost predicate EncodedAt(data: seq<Byte>, offset: int, w: RecordWrapper)
  {
    BytesAt(data, offset, Encode(w))
  }

  /** A decoder positioned at an encoding recovers its wrapper. */
  lemma DecodeAt(data: seq<Byte>, offset: int, w: RecordWrapper)
    requires EncodedAt(data, offset, w)
    ensures Decode(data[offset..]) == Ok((w, |Encode(w)|))
  {
    var e := Encode(w);
    SliceSplit(data, offset, e);
    DecodeEncode(w, data[offset + |e|..]);
  }

  lemma SliceSplit(data: seq<Byte>, offset: nat, e: seq<Byte>)
    requires BytesAt(data, offset, e)
    ensures data[offset..] == e + data[offset + |e|..]
  {
  }

  lemma BytesAtAppend(data: seq<Byte>, offset: int, e: seq<Byte>, more: seq<Byte>)
    requires BytesAt(data, offset, e)
    ensures BytesAt(data + more, offset, e)
  {
    assert (data + more)[offset..offset + |e|] == data[offset..offset + |e|];
  }

  /** Appending to the data file leaves every earlier encoding in place. */
  lemma EncodedAtAppend(data: seq<Byte>, offset: int, w: RecordWrapper, more: seq<Byte>)
    requires EncodedAt(data, offset, w)
    ensures EncodedAt(data + more, offset, w)
  {
    BytesAtAppend(data, offset, Encode(w), more);
  }

  // ---------------------------------------------------------------------
  // The index snapshot: an eight-byte count, then one group per entry.
  // ---------------------------------------------------------------------

  /** The snapshot saveBtree writes: the entry count as a long, then one group per entry. */
  function EncodeSnapshot(rs: seq<IndexRecord>): (r: seq<Byte>)
    requires |rs| <= MaxInt64
    ensures |r| == 8 + EntrySize * |rs|
    ensures ReadLong(r[..8]) == |rs|
  {
    assert (EncodeInt64(|rs|) + EncodeEntries(rs))[..8] == EncodeInt64(|rs|);
    EncodeInt64(|rs|) + EncodeEntries(rs)
  }

  function DecodeEntries(s: seq<Byte>, n: nat): (r: Result<seq<IndexRecord>, DecodeError>)
    ensures r.Ok? ==> |r.value| == n
    decreases n
  {
    if n == 0 then Ok([])
    else if |s| < EntrySize then Err(Truncated)
    else
      match DecodeEntries(s[EntrySize..], n - 1)
      case Err(e) => Err(e)
      case Ok(tail) => Ok([DecodeEntry(s)] + tail)
  }

  /** Decodes an index file; a short file is Truncated and a negative count Malformed. */
  function DecodeSnapshot(s: seq<Byte>): (r: Result<seq<IndexRecord>, DecodeError>)
    ensures |s| < 8 ==> r == Err(Truncated)
    ensures r.Ok? ==> |s| >= 8 + EntrySize * |r.value|
  {
    if |s| < 8 then Err(Truncated)
    else
      var n := ReadLong(s[..8]);
      if n < 0 then Err(Malformed)
      else
        DecodeEntriesLength(s[8..], n);
        DecodeEntries(s[8..], n)
  }

  lemma {:induction false} DecodeEntriesLength(s: seq<Byte>, n: nat)
    ensures DecodeEntries(s, n).Ok? ==> |s| >= EntrySize * n
    decreases n
  {
    if n > 0 && |s| >= EntrySize {
      DecodeEntriesLength(s[EntrySize..], n - 1);
    }
  }

  /** Decoding one more group in front of a decodable list adds its entry in front. */
  lemma DecodeEntriesCons(e: IndexRecord, more: seq<Byte>, n: nat, tail: seq<IndexRecord>)
    requires DecodeEntries(more, n) == Ok(tail)
    ensures DecodeEntries(EncodeEntry(e) + more, n + 1) == Ok([e] + tail)
  {
    var s := EncodeEntry(e) + more;
    assert s[EntrySize..] == more;
    DecodeEncodeEntry(e, more);
  }

  lemma {:induction false} DecodeEncodeEntries(rs: seq<IndexRecord>, rest: seq<Byte>)
    ensures DecodeEntries(EncodeEntries(rs) + rest, |rs|) == Ok(rs)
    decreases |rs|
  {
    if rs != [] {
      var more := EncodeEntries(rs[1..]) + rest;
      DecodeEncodeEntries(rs[1..], rest);
      DecodeEntriesCons(rs[0], more, |rs| - 1, rs[1..]);
      assert EncodeEntries(rs) + rest == EncodeEntry(rs[0]) + more;
      assert rs == [rs[0]] + rs[1..];
    }
  }

  /** Snapshot round trip: the saved list is read back unchanged, in order. */
  lemma SnapshotRoundTrip(rs: seq<IndexRecord>)
    requires |rs| <= MaxInt64
    ensures DecodeSnapshot(EncodeSnapshot(rs)) == Ok(rs)
  {
    var s := EncodeSnapshot(rs);
    assert s[..8] == EncodeInt64(|rs|);
    assert s[8..] == EncodeEntries(rs) + [];
    DecodeEncodeEntries(rs, []);
  }
}
