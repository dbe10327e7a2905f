/**
 * The Java reader: parses an index file as raw 12-byte groups (a
 * big-endian int key, then a big-endian long offset) into a hash map, and
 * reads at most 100 bytes of the data file at the offset of a record number.
 * A file is `Some(bytes)` when it exists and `None` when it does not.
 */
module Reader {
  import opened Common
  import opened Wire

  /** Size of the buffer readDataByRecordNumber reads into. */
  const BufferSize: nat := 100

  /**
   * The groups of `s`: one entry per whole 12 bytes, in file order; a
   * remainder shorter than a group is not part of any.
   */
  function Groups(s: seq<Byte>): (r: seq<IndexRecord>)
    ensures |r| == |s| / EntrySize
    decreases |s|
  {
    if |s| < EntrySize then [] else [DecodeEntry(s)] + Groups(s[EntrySize..])
  }

  /** Group i is readInt of bytes 12i to 12i + 3 and readLong of bytes 12i + 4 to 12i + 11. */
  lemma {:induction false} GroupAt(s: seq<Byte>, i: nat)
    requires i < |s| / EntrySize
    ensures EntrySize * i + EntrySize <= |s|
    ensures Groups(s)[i] == IndexRecord(ReadInt(s[EntrySize * i..EntrySize * i + 4]),
                                        ReadLong(s[EntrySize * i + 4..EntrySize * i + EntrySize]))
  {
    GroupFrom(s, i);
    var u := s[EntrySize * i..];
    assert u[..4] == s[EntrySize * i..EntrySize * i + 4];
    assert u[4..12] == s[EntrySize * i + 4..EntrySize * i + EntrySize];
  }

  /** Group i is the group that starts at byte 12i. */
  lemma {:induction false} GroupFrom(s: seq<Byte>, i: nat)
    requires i < |s| / EntrySize
    ensures EntrySize * i + EntrySize <= |s|
    ensures Groups(s)[i] == DecodeEntry(s[EntrySize * i..])
    decreases i
  {
    if i > 0 {
      var t := s[EntrySize..];
      GroupFrom(t, i - 1);
      assert t[EntrySize * (i - 1)..] == s[EntrySize * i..];
    }
  }

  /** The first group of the bytes from `pos` on, and the groups after it. */
  lemma GroupsStep(s: seq<Byte>, pos: nat)
    requires pos + EntrySize <= |s|
    ensures Groups(s[pos..]) == [IndexRecord(ReadInt(s[pos..pos + 4]), ReadLong(s[pos + 4..pos + EntrySize]))]
                                + Groups(s[pos + EntrySize..])
  {
    var t := s[pos..];
    assert t[..4] == s[pos..pos + 4];
    assert t[4..EntrySize] == s[pos + 4..pos + EntrySize];
    assert t[EntrySize..] == s[pos + EntrySize..];
  }

  /**
   * loadBTreeAsBinary: a missing file gives an empty map; otherwise each
   * whole group, in file order, is put into the map, so a later group with
   * the same key overwrites an earlier one.
   */
  method LoadBTreeAsBinary(file: Option<seq<Byte>>) returns (m: map<Int32, Int64>)
    ensures file.None? ==> m == map[]
    ensures file.Some? ==> m == MapOfList(Groups(file.value))
  {
    m := map[];
    if file.None? {
      return;
    }
    var bytes := file.value;
    var pos := 0;
    assert bytes[0..] == bytes;
    while |bytes| - pos >= EntrySize
      invariant 0 <= pos <= |bytes|
      invariant PutAll(m, Groups(bytes[pos..])) == MapOfList(Groups(bytes))
      decreases |bytes| - pos
    {
      GroupsStep(bytes, pos);
      var key := ReadInt(bytes[pos..pos + 4]);
      var value := ReadLong(bytes[pos + 4..pos + EntrySize]);
      m := m[key := value];
      pos := pos + EntrySize;
    }
  }

  /** Each group holds at most one new key, so the map has at most ⌊|s| / 12⌋ entries. */
  lemma LoadedSize(s: seq<Byte>)
    ensures |MapOfList(Groups(s))| <= |s| / EntrySize
  {
    MapOfListSize(Groups(s));
  }

  /** Parsing the groups of a list, followed by a short tail, gives back the list. */
  lemma {:induction false} GroupsOfEncoding(rs: seq<IndexRecord>, tail: seq<Byte>)
    requires |tail| < EntrySize
    ensures Groups(EncodeEntries(rs) + tail) == rs
    decreases |rs|
  {
    var s := EncodeEntries(rs) + tail;
    if rs == [] {
      assert s == tail;
    } else {
      var rest := EncodeEntries(rs[1..]) + tail;
      assert s == EncodeEntry(rs[0]) + rest;
      assert s[EntrySize..] == rest;
      DecodeEncodeEntry(rs[0], rest);
      GroupsOfEncoding(rs[1..], tail);
      assert Groups(s) == [rs[0]] + Groups(rest);
      assert rs == [rs[0]] + rs[1..];
    }
  }

  /**
   * Parsing the groups written for a list maps each key of the list to the
   * value of its last occurrence, and holds no other key.
   */
  lemma ParseEncoded(rs: seq<IndexRecord>, tail: seq<Byte>, i: nat)
    requires |tail| < EntrySize
    requires i < |rs|
    requires forall j :: i < j < |rs| ==> rs[j].key != rs[i].key
    ensures MapOfList(Groups(EncodeEntries(rs) + tail)).Keys == KeysOf(rs)
    ensures MapOfList(Groups(EncodeEntries(rs) + tail))[rs[i].key] == rs[i].value
  {
    GroupsOfEncoding(rs, tail);
    MapOfListLastOccurrence(rs, i);
  }

  /** What readDataByRecordNumber reports. */
  datatype ReadOutcome =
    | NotInIndex(recordNumber: Int32)
    | ReadFailed(recordNumber: Int32, offset: Int64)
    | Empty(recordNumber: Int32)
    | Read(recordNumber: Int32, bytes: seq<Byte>)

  /**
   * The bytes one read into the buffer returns at `offset`: as many as fit
   * in the buffer, or up to the end of the file.
   */
  function Window(data: seq<Byte>, offset: nat): (w: seq<Byte>)
    requires offset < |data|
    ensures 0 < |w| <= BufferSize
    ensures offset + |w| <= |data| && w == data[offset..offset + |w|]
    ensures |w| == BufferSize || offset + |w| == |data|
  {
    if |data| - offset < BufferSize then data[offset..] else data[offset..offset + BufferSize]
  }

  /** A record that fits in the buffer is read in full. */
  lemma WindowHoldsRecord(data: seq<Byte>, offset: nat, e: seq<Byte>)
    requires offset + |e| <= |data| && data[offset..offset + |e|] == e && 0 < |e| <= BufferSize
    ensures offset < |data| && |e| <= |Window(data, offset)|
    ensures Window(data, offset)[..|e|] == e
  {
    var w := Window(data, offset);
    assert data[offset..offset + |w|][..|e|] == data[offset..offset + |e|];
  }

  /**
   * readDataByRecordNumber: an absent key reads nothing. A missing file or
   * a negative offset is an IOException. At or past the end of the file the
   * read returns -1 and the record is empty; otherwise the buffer is filled
   * with the bytes of `Window`.
   */
  method ReadDataByRecordNumber(dataFile: Option<seq<Byte>>, index: map<Int32, Int64>, recordNumber: Int32)
    returns (outcome: ReadOutcome)
    ensures recordNumber !in index ==> outcome == NotInIndex(recordNumber)
    ensures recordNumber in index && (dataFile.None? || index[recordNumber] < 0) ==>
      outcome == ReadFailed(recordNumber, index[recordNumber])
    ensures recordNumber in index && dataFile.Some? && index[recordNumber] >= |dataFile.value| ==>
      outcome == Empty(recordNumber)
    ensures recordNumber in index && dataFile.Some? && 0 <= index[recordNumber] < |dataFile.value| ==>
      outcome == Read(recordNumber, Window(dataFile.value, index[recordNumber]))
  {
    if recordNumber !in index {
      return NotInIndex(recordNumber);
    }
    var offset := index[recordNumber];
    if dataFile.None? || offset < 0 {
      return ReadFailed(recordNumber, offset);
    }
    var data := dataFile.value;
    if offset >= |data| {
      return Empty(recordNumber);
    }
    var buffer := new Byte[BufferSize];
    var bytesRead := if |data| - offset < BufferSize then |data| - offset else BufferSize;
    var i := 0;
    while i < bytesRead
      invariant 0 <= i <= bytesRead
      invariant buffer[..i] == data[offset..offset + i]
    {
      buffer[i] := data[offset + i];
      i := i + 1;
    }
    outcome := Read(recordNumber, buffer[..bytesRead]);
  }
}
