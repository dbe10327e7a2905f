/**
 * Types, tags and index entries shared by the writer (capture.go), the
 * query side (analysis.go) and the Java raw-index reader (reader.java).
 * Go integer widths are subset types of `int`; a Go `string` is a byte
 * string, so it is a sequence of bytes here.
 */
module Common {

  const MinInt32: int := -0x8000_0000
  const MaxInt32: int := 0x7fff_ffff
  const MinInt64: int := -0x8000_0000_0000_0000
  const MaxInt64: int := 0x7fff_ffff_ffff_ffff

  type Byte = b: int | 0 <= b < 256
  type Int32 = x: int | MinInt32 <= x <= MaxInt32
  type Int64 = x: int | MinInt64 <= x <= MaxInt64

  /** A Go string: any byte sequence whose length fits Go's `int`. */
  type GoString = s: seq<Byte> | |s| <= MaxInt64

  datatype Option<+T> = None | Some(value: T)

  datatype Result<+T, +E> = Ok(value: T) | Err(error: E)

  /** Why a byte stream could not be decoded. */
  datatype DecodeError = UnknownType | Truncated | Malformed

  /** The I/O step that failed. */
  datatype IoOp = Create | Open | Stat | Write | Seek

  datatype Error =
    | IoError(op: IoOp)
    | DecodeFailure(reason: DecodeError)
    | KeyNotFound(key: Int32)

  /** The record-type tags carried by every record and by its wrapper. */
  const RTypeBeginFrame: Byte := 'B' as int
  const RTypeEndFrame: Byte := 'E' as int
  const RTypeI64Change: Byte := 'I' as int

  /**
   * The three record structs. Each struct carries its own RID byte; the
   * wrapper below carries the type byte that readers dispatch on.
   */
  datatype Record =
    | BeginFrame(rid: Byte, className: GoString, methodName: GoString, methodType: GoString)
    | EndFrame(rid: Byte, className: GoString, methodName: GoString, methodType: GoString)
    | I64Change(rid: Byte, valueOld: Int64, valueNew: Int64)

  /** RecordWrapper: the type byte plus the record it announces. */
  datatype RecordWrapper = RecordWrapper(rtype: Byte, record: Record)

  /** An index entry: record number and byte offset in the data file. */
  datatype IndexRecord = IndexRecord(key: Int32, value: Int64)

  /** The B-tree ordering of index entries: by key alone. */
  predicate Less(a: IndexRecord, b: IndexRecord): (r: bool)
    ensures r ==> a != b
    ensures a.key == b.key ==> !r
  {
    a.key < b.key
  }

  /** `Less` looks at keys only: replacing either value changes nothing. */
  lemma LessIgnoresValue(a: IndexRecord, b: IndexRecord, va: Int64, vb: Int64)
    ensures Less(a, b) <==> a.key < b.key
    ensures Less(a, b) == Less(IndexRecord(a.key, va), IndexRecord(b.key, vb))
  {
  }

  /** `Less` is a strict total order on keys. */
  lemma LessIsStrictTotalOrder(a: IndexRecord, b: IndexRecord, c: IndexRecord)
    ensures !Less(a, a)
    ensures Less(a, b) && Less(b, c) ==> Less(a, c)
    ensures Less(a, b) ==> !Less(b, a)
    ensures a.key != b.key ==> Less(a, b) || Less(b, a)
  {
  }

  /**
   * Two entries are equivalent under `Less` (neither is less than the
   * other) exactly when their keys agree, whatever their values; so an
   * ordered container keyed by `Less` keeps at most one entry per key.
   */
  lemma EquivalentIffSameKey(a: IndexRecord, b: IndexRecord)
    ensures (!Less(a, b) && !Less(b, a)) <==> a.key == b.key
  {
  }

  /** The three tags are pairwise distinct, so a tag names at most one variant. */
  lemma TagsDistinct()
    ensures RTypeBeginFrame != RTypeEndFrame
    ensures RTypeBeginFrame != RTypeI64Change
    ensures RTypeEndFrame != RTypeI64Change
    ensures RTypeBeginFrame == 66 && RTypeEndFrame == 69 && RTypeI64Change == 73
  {
  }

  // ---------------------------------------------------------------------
  // Lists of index entries and the maps they denote.
  // ---------------------------------------------------------------------

  /** Strictly increasing keys (the order `Ascend` visits). */
  ghost predicate StrictlyAscending(s: seq<IndexRecord>)
  {
    forall i, j :: 0 <= i < j < |s| ==> Less(s[i], s[j])
  }

  function KeysOf(s: seq<IndexRecord>): set<Int32>
  {
    set i | 0 <= i < |s| :: s[i].key
  }

  /** `s` lists exactly the entries of `m`. */
  ghost predicate Represents(s: seq<IndexRecord>, m: map<Int32, Int64>)
  {
    && m.Keys == KeysOf(s)
    && forall i :: 0 <= i < |s| ==> s[i].key in m && m[s[i].key] == s[i].value
  }

  /** A list represents one map only. */
  lemma RepresentsUnique(s: seq<IndexRecord>, m1: map<Int32, Int64>, m2: map<Int32, Int64>)
    requires Represents(s, m1) && Represents(s, m2)
    ensures m1 == m2
  {
    forall k | k in m1 ensures m1[k] == m2[k] {
      assert k in KeysOf(s);
      var i :| 0 <= i < |s| && s[i].key == k;
    }
  }

  /** Insert the entries of `s` into `m` one after the other, each one replacing. */
  function PutAll(m: map<Int32, Int64>, s: seq<IndexRecord>): map<Int32, Int64>
    decreases |s|
  {
    if s == [] then m else PutAll(m[s[0].key := s[0].value], s[1..])
  }

  /** The map obtained by inserting the entries of `s` in list order into an empty map. */
  function MapOfList(s: seq<IndexRecord>): map<Int32, Int64>
  {
    PutAll(map[], s)
  }

  lemma KeysOfCons(s: seq<IndexRecord>)
    requires s != []
    ensures KeysOf(s) == {s[0].key} + KeysOf(s[1..])
  {
    var t := s[1..];
    forall k | k in KeysOf(s) ensures k in {s[0].key} + KeysOf(t) {
      var i :| 0 <= i < |s| && s[i].key == k;
      if i > 0 { assert t[i - 1].key == k; }
    }
    forall k | k in KeysOf(t) ensures k in KeysOf(s) {
      var i :| 0 <= i < |t| && t[i].key == k;
      assert s[i + 1].key == k;
    }
  }

  lemma {:induction false} KeysOfSize(s: seq<IndexRecord>)
    ensures |KeysOf(s)| <= |s|
    decreases |s|
  {
    if s == [] {
      assert KeysOf(s) == {};
    } else {
      KeysOfCons(s);
      KeysOfSize(s[1..]);
    }
  }

  lemma {:induction false} AscendingKeysOfSize(s: seq<IndexRecord>)
    requires StrictlyAscending(s)
    ensures |KeysOf(s)| == |s|
    decreases |s|
  {
    if s == [] {
      assert KeysOf(s) == {};
    } else {
      KeysOfCons(s);
      assert StrictlyAscending(s[1..]) by {
        forall i, j | 0 <= i < j < |s[1..]| ensures Less(s[1..][i], s[1..][j]) {
          assert Less(s[i + 1], s[j + 1]);
        }
      }
      AscendingKeysOfSize(s[1..]);
      forall j | 0 <= j < |s[1..]| ensures s[1..][j].key != s[0].key {
        assert Less(s[0], s[j + 1]);
      }
    }
  }

  /** The keys of `PutAll(m, s)` are those of `m` and of `s`. */
  lemma {:induction false} PutAllKeys(m: map<Int32, Int64>, s: seq<IndexRecord>)
    ensures PutAll(m, s).Keys == m.Keys + KeysOf(s)
    decreases |s|
  {
    if s == [] {
      assert KeysOf(s) == {};
    } else {
      KeysOfCons(s);
      PutAllKeys(m[s[0].key := s[0].value], s[1..]);
    }
  }

  /** A key that `s` never mentions keeps its value from `m`. */
  lemma {:induction false} PutAllUntouched(m: map<Int32, Int64>, s: seq<IndexRecord>, k: Int32)
    requires k in m && k !in KeysOf(s)
    ensures k in PutAll(m, s) && PutAll(m, s)[k] == m[k]
    decreases |s|
  {
    if s != [] {
      KeysOfCons(s);
      PutAllUntouched(m[s[0].key := s[0].value], s[1..], k);
    }
  }

  /**
   * Last occurrence wins: if entry `i` is the last one in `s` with its key,
   * `PutAll(m, s)` maps that key to entry `i`'s value.
   */
  lemma {:induction false} PutAllLast(m: map<Int32, Int64>, s: seq<IndexRecord>, i: nat)
    requires i < |s|
    requires forall j :: i < j < |s| ==> s[j].key != s[i].key
    ensures s[i].key in PutAll(m, s) && PutAll(m, s)[s[i].key] == s[i].value
    decreases |s|
  {
    var m' := m[s[0].key := s[0].value];
    if i == 0 {
      forall j | 0 <= j < |s[1..]| ensures s[1..][j].key != s[0].key {
        assert s[1..][j] == s[j + 1];
      }
      PutAllUntouched(m', s[1..], s[0].key);
    } else {
      assert s[1..][i - 1] == s[i];
      forall j | i - 1 < j < |s[1..]| ensures s[1..][j].key != s[1..][i - 1].key {
        assert s[1..][j] == s[j + 1];
      }
      PutAllLast(m', s[1..], i - 1);
    }
  }

  /**
   * Loading a list maps each key to the value of its last occurrence, and
   * holds no other key.
   */
  lemma MapOfListLastOccurrence(s: seq<IndexRecord>, i: nat)
    requires i < |s|
    requires forall j :: i < j < |s| ==> s[j].key != s[i].key
    ensures MapOfList(s).Keys == KeysOf(s)
    ensures s[i].key in MapOfList(s) && MapOfList(s)[s[i].key] == s[i].value
  {
    PutAllKeys(map[], s);
    PutAllLast(map[], s, i);
  }

  /** Loading never yields more entries than the list has. */
  lemma MapOfListSize(s: seq<IndexRecord>)
    ensures |MapOfList(s)| <= |s|
  {
    PutAllKeys(map[], s);
    KeysOfSize(s);
    assert MapOfList(s).Keys == KeysOf(s);
  }

  /** A strictly ascending list loads back to the very map it represents. */
  lemma MapOfAscending(s: seq<IndexRecord>)
    requires StrictlyAscending(s)
    ensures Represents(s, MapOfList(s))
  {
    PutAllKeys(map[], s);
    forall i | 0 <= i < |s|
      ensures s[i].key in MapOfList(s) && MapOfList(s)[s[i].key] == s[i].value
    {
      forall j | i < j < |s| ensures s[j].key != s[i].key {
        assert Less(s[i], s[j]);
      }
      PutAllLast(map[], s, i);
    }
  }

  /** Dropping the first (smallest) entry of an ascending listing lists the map without that key. */
  lemma AscendingTail(s: seq<IndexRecord>, m: map<Int32, Int64>)
    requires s != [] && StrictlyAscending(s) && Represents(s, m)
    ensures StrictlyAscending(s[1..])
    ensures Represents(s[1..], map k | k in m && k != s[0].key :: m[k])
  {
    var m' := map k | k in m && k != s[0].key :: m[k];
    KeysOfCons(s);
    forall i, j | 0 <= i < j < |s[1..]| ensures Less(s[1..][i], s[1..][j]) {
      assert Less(s[i + 1], s[j + 1]);
    }
    forall j | 0 <= j < |s[1..]| ensures s[1..][j].key != s[0].key {
      assert Less(s[0], s[j + 1]);
    }
    forall i | 0 <= i < |s[1..]| ensures s[1..][i].key in m' && m'[s[1..][i].key] == s[1..][i].value {
      assert Less(s[0], s[i + 1]);
      assert s[1..][i] == s[i + 1];
    }
  }

  /** The first entry of a strictly ascending listing holds the least key of the map. */
  lemma AscendingFirstIsLeast(s: seq<IndexRecord>, m: map<Int32, Int64>, k: Int32)
    requires StrictlyAscending(s) && Represents(s, m) && k in m
    ensures s != [] && s[0].key <= k
  {
    assert k in KeysOf(s);
    var j :| 0 <= j < |s| && s[j].key == k;
    if j > 0 { assert Less(s[0], s[j]); }
  }

  /**
   * A map has only one strictly ascending listing: two ascending lists that
   * represent the same map are equal element for element.
   */
  lemma {:induction false} AscendingListingUnique(s1: seq<IndexRecord>, s2: seq<IndexRecord>, m: map<Int32, Int64>)
    requires StrictlyAscending(s1) && Represents(s1, m)
    requires StrictlyAscending(s2) && Represents(s2, m)
    ensures s1 == s2
    decreases |s1|
  {
    if s1 != [] {
      var k1 := s1[0].key;
      assert k1 in m;
      AscendingFirstIsLeast(s2, m, k1);
      var k2 := s2[0].key;
      assert k2 in m;
      AscendingFirstIsLeast(s1, m, k2);
      assert s1[0] == s2[0];
      AscendingTail(s1, m);
      AscendingTail(s2, m);
      AscendingListingUnique(s1[1..], s2[1..], map k | k in m && k != k1 :: m[k]);
      assert s1 == [s1[0]] + s1[1..];
      assert s2 == [s2[0]] + s2[1..];
    }
  }

  /** Keys increase by at least one per step of a strictly ascending list. */
  lemma {:induction false} AscendingKeyGap(s: seq<IndexRecord>, i: nat)
    requires StrictlyAscending(s) && i < |s|
    ensures s[i].key >= s[0].key + i
    decreases i
  {
    if i > 0 {
      AscendingKeyGap(s, i - 1);
      assert Less(s[i - 1], s[i]);
    }
  }

  /** An ascending list of 32-bit keys has at most 2^32 entries. */
  lemma AscendingLength(s: seq<IndexRecord>)
    requires StrictlyAscending(s)
    ensures |s| <= 0x1_0000_0000
  {
    if s != [] {
      AscendingKeyGap(s, |s| - 1);
    }
  }
}
