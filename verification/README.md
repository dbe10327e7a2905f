# A verified model of the record store

The store has two files. The data file is append-only and holds
self-describing records. The index file holds an ordered index from
record numbers to byte offsets, saved as one snapshot.

- `capture` writes a begin-frame record under number 0 and int64-change
  records under numbers 1 to maxRecords; the change record for k holds
  old value k - 1 and new value k. Last comes an end-frame record under
  maxRecords + 1.
- Each write (`writeRecordToFile`) takes the current size of the data file
  as the record's offset, appends the record's encoding, and does
  insert-or-replace of (number, offset) in a B-tree ordered by key alone.
- `saveBtree` stores the index as its ascending list of entries.
- `analysis` reloads that list into a fresh tree (`loadBTree`) and reports
  on 20 random record numbers plus the two boundary numbers 0 and
  maxRecords + 1 (`reportData`: lookup, seek, decode, switch on the type
  byte).
- A separate Java reader parses an index file as raw 12-byte groups (a
  big-endian int key, then a big-endian long offset), and reads up to 100
  bytes of the data file at a record's offset.

Modules, one per concern:

- `Common` (common.dfy) holds the entry and record types, the tags, `Less`,
  and the facts about lists of entries and the maps they load into. Keys
  and offsets are the subset types `Int32` and `Int64`, so every entry
  stays in the signed 32- and 64-bit ranges.
- `Wire` (wire.dfy) holds two's-complement big-endian integers as
  `java.io.DataInput` reads them, the 12-byte group, and a list of groups
  one after the other.
- `Codec` (codec.dfy) stands in for gob. The encoding is this model's own,
  and so is the position of the type byte in it (gob writes type
  descriptors first). It keeps the properties the store relies on:
  - every encoding is non-empty and carries the wrapper's type byte;
  - it names which registered struct the record is;
  - it is self-delimiting and prefix-free;
  - the snapshot of the entry list decodes back to that same list.
- `BTree` (btree.dfy): the class `OrderedIndex` stands for the B-tree. It
  holds a strictly ascending `seq` of entries and a ghost map as its
  abstract contents, with `ReplaceOrInsert`, `Get` and `Ascend`.
- `DataLog` (datalog.dfy): the class `AppendLog` is the data file, with
  `FileSize` and `Append`.
- `Capture` (capture.dfy) holds `writeRecordToFile`, the capture loop,
  `saveBtree`, and the function `CaptureOutcome` that states what a
  capture leaves behind for every pattern of I/O failures.
- `Analysis` (analysis.dfy) holds `loadBTree`, `reportData` and the probe
  sequence of `analysis`. It ends with `AnalysisAfterCapture`: once capture
  succeeds, analysis completes and shows, for every sampled number, the
  record that capture wrote under it, and then the two frames.
- `Reader` (reader.dfy) holds `loadBTreeAsBinary` and
  `readDataByRecordNumber`.

I/O is modelled as follows:

- Files are byte sequences. A file that does not exist or fails to open is
  `None`.
- Whether each create, stat, write and save call of capture fails comes in
  as a `CaptureEnv`.
- A write that would make the data file larger than an int64 size fails
  like an operating-system write error; `Capture` proves this never
  happens.
- A panic in a type assertion of `reportData` is the report `Panicked`,
  and it ends the run (`Crashed`).

Points where the code's behaviour is easy to misread:

- Record numbers start at 0, so the boundary probes 0 and maxRecords + 1 of
  `analysis` hit the begin and end frames and are shown
  (`QueryAfterCapture`).
- `reportData` does not check the sign of an offset. The model lets an
  index file hold any offset, and a negative one fails the seek.

## Model

| member | source | states |
|---|---|---|
| Common.Less | common.go:51-53 | the B-tree ordering: an entry is never before itself, and two entries with the same key are never ordered, whatever their values |
| Common.LessIgnoresValue | common.go:51-53 | a is before b exactly when a's key is smaller; changing either value never changes the answer |
| Common.LessIsStrictTotalOrder | common.go:51-53 | Less is irreflexive, transitive and asymmetric, and any two entries with different keys are comparable |
| Common.EquivalentIffSameKey | common.go:51-53 | two entries are equivalent under Less (neither before the other) exactly when their keys are equal, whatever their values |
| Common.TagsDistinct | common.go:14-16 | the tags 'B', 'E' and 'I' are the bytes 66, 69 and 73, pairwise distinct |
| Common.KeysOfSize | common.go:40-43 | a list of entries has no more distinct keys than entries |
| Common.AscendingKeysOfSize | common.go:51-53 | in a strictly ascending list every entry has its own key |
| Common.PutAllKeys | analysis.go:62-64 | inserting a list of entries into a map adds exactly the list's keys |
| Common.PutAllUntouched | analysis.go:62-64 | a key the list never mentions keeps its previous value |
| Common.PutAllLast | analysis.go:62-64 | after inserting a list in order, a key holds the value of its last occurrence |
| Common.MapOfListLastOccurrence | analysis.go:61-64 | loading a list into an empty map gives exactly the list's keys, each with the value of its last occurrence |
| Common.MapOfListSize | analysis.go:61-64 | the loaded map has at most as many entries as the list |
| Common.MapOfAscending | analysis.go:61-64 | a strictly ascending list loads into the very map it lists |
| Common.AscendingTail | capture.go:111-115 | dropping the first entry of an ascending listing lists the map without the smallest key |
| Common.AscendingFirstIsLeast | capture.go:111-115 | the first entry of an ascending listing has the smallest key of the map |
| Common.AscendingListingUnique | capture.go:111-115 | two strictly ascending lists that list the same map are equal |
| Common.RepresentsUnique | analysis.go:61-64 | a list of entries represents exactly one map |
| Common.AscendingKeyGap | common.go:41 | in a strictly ascending list, keys grow by at least one per position |
| Common.AscendingLength | common.go:41 | an ascending list of 32-bit keys has at most 2^32 entries |
| Wire.Unsigned | reader.java:45-46 | the big-endian unsigned value of n bytes is below 256^n |
| Wire.EncodeUnsigned | reader.java:45-46 | the big-endian bytes of a value have the requested width |
| Wire.UnsignedOfEncode | reader.java:45-46 | reading back the big-endian bytes of a value gives the value |
| Wire.EncodeOfUnsigned | reader.java:45-46 | every byte string is the big-endian encoding of its own value |
| Wire.EncodeInt32 | reader.java:45 | the four bytes written for an int read back with readInt as that int |
| Wire.EncodeInt64 | reader.java:46 | the eight bytes written for a long read back with readLong as that long |
| Wire.EncodeOfReadInt | reader.java:45 | every four bytes are the encoding of the int readInt reads from them, so readInt is a bijection |
| Wire.EncodeOfReadLong | reader.java:46 | every eight bytes are the encoding of the long readLong reads from them |
| Wire.ReadInt | reader.java:45 | readInt of four bytes, a 32-bit int that is negative exactly when the first byte has its top bit set |
| Wire.ReadLong | reader.java:46 | readLong of eight bytes, a 64-bit long that is negative exactly when the first byte has its top bit set |
| Wire.ReadIntBytes | reader.java:45 | readInt is the first byte signed times 2^24 plus the other three unsigned, big-endian, as DataInput documents it |
| Wire.ReadLongBytes | reader.java:46 | readLong is the first byte signed times 2^56 plus the other seven unsigned, big-endian |
| Wire.EncodeEntry | reader.java:44 | a group is 12 bytes long |
| Wire.DecodeEncodeEntry | reader.java:45-46 | a group decodes to the key and offset it encodes, whatever follows it |
| Wire.DecodeEntry | reader.java:45-46 | one group read as readInt then readLong; the key or offset is negative exactly when its first byte has the top bit set |
| Wire.EncodeOfDecodeEntry | reader.java:45-46 | any 12 bytes are the group of the entry they read as, so reading a group loses nothing |
| Codec.EncodeString | common.go:21-23 | a string's encoding is its length plus eight bytes |
| Codec.DecodeString | common.go:21-23 | a decoded string used exactly the bytes of its own encoding |
| Codec.DecodeEncodeString | common.go:21-23 | a string decodes back from its encoding, whatever follows |
| Codec.DecodeNames | common.go:19-31 | decoded frame names used exactly the bytes of their encoding |
| Codec.DecodeNamesSteps | common.go:19-31 | three strings decoded one after another are the frame's names |
| Codec.DecodeNamesOfParts | common.go:19-31 | the three names decode back from their three encodings |
| Codec.DecodeEncodeNames | common.go:19-31 | the three names of a frame decode back from their encoding, whatever follows |
| Codec.Encode | capture.go:96-97 | a record's encoding is non-empty and starts with the wrapper's type byte |
| Codec.Decode | analysis.go:87-93 | an unregistered struct fails as UnknownType; a success used at most the available bytes and keeps the type byte |
| Codec.DecodeEncodeI64 | common.go:33-37 | a change record decodes back from its encoding and uses exactly its bytes |
| Codec.DecodeEncodeFrame | common.go:19-31 | a begin or end frame decodes back from its encoding and uses exactly its bytes |
| Codec.DecodeEncode | analysis.go:87-89 | every wrapper decodes back from its encoding, whatever follows, and the decoder stops at its last byte |
| Codec.DecodeUsesEncodingI64 | analysis.go:87-89 | a successful change-record decode used exactly the encoding of what it returned |
| Codec.DecodeUsesEncodingFrame | analysis.go:87-89 | a successful frame decode used exactly the encoding of what it returned |
| Codec.DecodeUsesEncoding | analysis.go:87-89 | whatever a successful decode returns, the bytes it used are that wrapper's encoding |
| Codec.EncodingPrefixFree | capture.go:96-97 | no encoding is a proper prefix of another, and equal encodings come from equal wrappers |
| Codec.DecodeAt | analysis.go:80-89 | a decoder started at an offset where an encoding sits returns that wrapper |
| Codec.BytesAtAppend | capture.go:96-97 | appending to a file leaves the bytes already there in place |
| Codec.EncodedAtAppend | capture.go:96-97 | appending to the data file leaves every earlier record where it was |
| Wire.EncodeEntries | capture.go:117-118 | a list of groups takes 12 bytes per entry; it is both the body of the saved snapshot and the raw layout of 12-byte groups that loadBTreeAsBinary parses (reader.java:44-46) |
| Codec.EncodeSnapshot | capture.go:117-118 | the saved index is 8 + 12 bytes per entry long and its leading long is the entry count |
| Codec.DecodeEntries | analysis.go:54-55 | a successful decode of n entries returns n entries |
| Codec.DecodeSnapshot | analysis.go:54-58 | an index file shorter than 8 bytes fails as truncated; a success needs at least 8 + 12 bytes per entry |
| Codec.DecodeEntriesLength | analysis.go:54-55 | decoding n entries succeeds only when 12n bytes are there |
| Codec.DecodeEncodeEntries | analysis.go:54-55 | an encoded entry list decodes back to itself, whatever follows |
| Codec.DecodeEntriesCons | analysis.go:54-55 | one more group in front of a decodable list decodes to its entry in front of that list |
| Codec.SnapshotRoundTrip | capture.go:117-118 | the saved entry list reads back unchanged and in order |
| BTree.OrderedIndex.constructor | capture.go:30 | a new tree is empty and valid |
| BTree.OrderedIndex.Len | common.go:51-53 | the tree holds one entry per key |
| BTree.OrderedIndex.Search | analysis.go:71 | the search position has every smaller key before it, and it reports the key as found exactly when the tree holds it |
| BTree.OrderedIndex.Get | analysis.go:71-76 | the lookup finds an offset exactly when the key is present, and it is the key's offset |
| BTree.OrderedIndex.ReplaceOrInsert | capture.go:103 | the key maps to the new offset and every other key is unchanged; a present key keeps the entry count and returns the old entry, a new key adds one entry |
| BTree.OrderedIndex.Ascend | capture.go:112-115 | every entry is visited exactly once, in strictly ascending key order |
| BTree.ReplaceKeepsOrder | capture.go:103 | overwriting an entry with one of the same key keeps the listing ascending and correct |
| BTree.InsertedAt | capture.go:103 | what an insertion at a position does to the positions of the entries |
| BTree.InsertAscending | capture.go:103 | inserting at the sorted position keeps the listing strictly ascending |
| BTree.InsertRepresents | capture.go:103 | inserting a new key's entry lists the map extended by that key |
| BTree.InsertKeepsOrder | capture.go:103 | inserting a new key at its sorted position keeps the listing ascending and correct |
| DataLog.AppendLog.constructor | capture.go:22 | a created data file is empty |
| DataLog.AppendLog.FileSize | common.go:62-68 | either the size (at least 0) and no error, or -1 together with the stat error |
| DataLog.AppendLog.Append | capture.go:96-100 | a successful write appends exactly the bytes; a failed one leaves the file unchanged and reports a write error |
| Capture.AsciiBytes | capture.go:34-36 | an ASCII literal becomes the byte string of its character codes, of the same length |
| Capture.Expected | capture.go:32-69 | record 0 is the begin frame, records 1 to maxRecords are change records, record maxRecords + 1 is the end frame, each with its tag as type byte |
| Capture.ExpectedSize | capture.go:32-69 | each frame record encodes to 55 bytes and each change record to 19 |
| Capture.Log | capture.go:37-69 | the data file after k records is exactly as long as the offset of record k |
| Capture.IndexedStep | capture.go:103 | indexing record k at its offset extends the index of records 0 to k - 1 to records 0 to k |
| Capture.Canonical | capture.go:111-115 | the final listing has maxRecords + 2 entries |
| Capture.NoFaultStep | capture.go:53-57 | one more call that does not fail extends the run of calls that did not fail |
| Capture.FirstFault | capture.go:47-57 | the first failing record number, with every call before it succeeding |
| Capture.WriteRecordToFile | capture.go:88-107 | the offset is the file size before the write; the encoding is appended and the index maps the number to that offset, every other key unchanged; a failed stat or write changes neither file nor index |
| Capture.SaveBtree | capture.go:110-119 | the index file holds the ascending listing of the index, which reads back as a list that lists the index exactly |
| Capture.WriteNumbered | capture.go:53-57 | a write under number k with capture's record moves the written state from k to k + 1, or fails with that call's error leaving the data file, the index and the fault history at k |
| Capture.WriteChanges | capture.go:43-61 | the loop writes change records 1 to maxRecords in order, the reused record's old value always one behind the counter so that number k holds the change from k - 1 to k, and stops at the first failing call, whose error it returns, with the data file and the index still as they were before that call |
| Capture.WriteRecords | capture.go:37-73 | the begin frame, the changes and the end frame are written in order, stopping at the first failure with the data file and the index holding exactly the records written before it |
| Capture.CaptureOutcome | capture.go:10-83 | what capture leaves for every pattern of create, stat, write and save failures: every error is an I/O error, the data file is missing only when a create failed, the index file has content exactly when capture succeeds, and then the data file holds all maxRecords + 2 records and the index 8 + 12 bytes per record |
| Capture.Capture | capture.go:10-83 | capture's error and files are those of CaptureOutcome, and it succeeds exactly when no create, stat, write or save call fails |
| Capture.LogStep | capture.go:91-97 | writing record k extends the data file by exactly its encoding |
| Capture.LogStepSize | capture.go:91 | record k ends where record k + 1 starts |
| Capture.RecordPrecedes | capture.go:91-97 | successful writes get strictly increasing offsets: each record lies wholly before every later one |
| Capture.OutcomeAtFault | capture.go:37-73 | when the call for record k is the first to fail, capture returns that error, the data file holds records 0 to k - 1, and the index file stays empty |
| Capture.OutcomeAfterWrites | capture.go:69-82 | after every record was written, capture saves the canonical listing, or fails with a write error and an empty index file |
| Capture.CaptureSucceedsIff | capture.go:10-83 | capture succeeds exactly when no I/O call fails |
| Capture.CanonicalListing | capture.go:111-115 | the final listing (number i at offset Offset(i)) is strictly ascending and lists the final index |
| Capture.FinalListing | capture.go:111-115 | the tree's entries after capture are exactly the canonical listing |
| Capture.LayoutStep | capture.go:91-97 | appending record k to a file laid out as records 0 to k - 1 gives the layout of records 0 to k |
| Capture.LayoutIsLog | capture.go:37-73 | a file laid out as records 0 to k - 1 is the data file after k records |
| Capture.RecordInLog | capture.go:88-103 | in the final data file, record i sits at the offset the index holds for i |
| Capture.CaptureLayout | capture.go:10-83 | after a successful capture, the index file lists number i at an offset where the data file holds record i, which decodes back, and the next record starts where it ends |
| Analysis.Dispatch | analysis.go:96-114 | tags 'B', 'I', 'E' show the begin frame, the change and the end frame with the record's fields; a mismatched struct panics; any other tag is reported; none returns an error |
| Analysis.From | analysis.go:80-89 | a decoder sought to the offset sees exactly the bytes from there to the end of the file, its byte i being file byte offset + i; past the end it sees nothing |
| Analysis.ReportOf | analysis.go:70-115 | an absent key is "not found" and is never looked up in the data; a negative offset fails the seek; otherwise it decodes at exactly the stored offset and dispatches, and a decode error is returned |
| Analysis.ReportData | analysis.go:70-115 | reportData on the loaded tree gives ReportOf for the tree's contents |
| Analysis.PutAllStep | analysis.go:62-63 | inserting the next entry is the first step of inserting the rest |
| Analysis.LoadBTree | analysis.go:51-67 | a decode failure gives no tree and the error; otherwise a fresh tree mapping each key to the offset of its last occurrence in the list |
| Analysis.SaveThenLoad | capture.go:111-115 | for any valid index, loading what saveBtree wrote succeeds and gives a tree with the same keys, the same offsets and the same ascending listing |
| Analysis.Sample | analysis.go:38-43 | the sample loop reports each pick in order up to and including the first that fails or panics |
| Analysis.SampleIs | analysis.go:38-43 | the sample reports are fully determined by which picks pass |
| Analysis.SampleLoop | analysis.go:38-43 | the loop's reports are the sample reports |
| Analysis.Probes | analysis.go:38-47 | the sampled reports then the two closing probes: at most one report per pick plus two; a completed run reported every pick, each passing, then record numbers 0 and maxRecords + 1; a failed run ends with the report whose error it returns; a crashed run ends with a panic |
| Analysis.ReportAll | analysis.go:38-47 | the loop and the two closing probes give the Probes outcome; the probes' errors are discarded but a panic ends the run |
| Analysis.AnalysisOutcome | analysis.go:13-48 | the whole run: any report at all means both files opened and the index decoded, and a completed run has one report per pick plus two |
| Analysis.Analysis | analysis.go:13-48 | a failed open or index decode ends the run with that error before any report; otherwise the outcome of the probes against the loaded index |
| Analysis.SampleAllPass | analysis.go:38-43 | when every pick passes, every pick is reported |
| Analysis.ProbesAllPass | analysis.go:38-47 | when every pick passes and neither closing probe panics, the run completes with all reports |
| Analysis.ExpectedReport | analysis.go:96-108 | showing a record capture wrote is neither an error nor a panic |
| Analysis.CapturedFiles | capture.go:76-82 | a successful capture leaves the full data file and an index file that decodes to the canonical listing |
| Analysis.DispatchExpected | analysis.go:96-108 | dispatching on record k shows the begin frame for 0, the change from k - 1 to k for 1 to maxRecords, and the end frame for maxRecords + 1 |
| Analysis.LoadedCanonical | analysis.go:61-64 | loading the saved listing maps every record number 0 to maxRecords + 1 to its offset |
| Analysis.QueryAfterCapture | analysis.go:70-115 | after a successful capture, every number 0 to maxRecords + 1, boundary probes included, is found at its offset and shows the record written under it |
| Analysis.AnalysisOfFiles | analysis.go:38-47 | over files in which every number shows its record, analysis completes and reports each pick and then both frames |
| Analysis.AnalysisAfterCapture | analysis.go:13-48 | after a successful capture, with picks in 1 to maxRecords as randomPal promises, analysis completes and shows each sampled change record, then the begin and the end frame |
| Reader.Groups | reader.java:44-47 | one entry per whole 12 bytes; a shorter remainder is ignored |
| Reader.GroupAt | reader.java:45-46 | group i is readInt of bytes 12i to 12i + 3 and readLong of bytes 12i + 4 to 12i + 11 |
| Reader.GroupFrom | reader.java:44-46 | group i is the group read at byte 12i |
| Reader.GroupsStep | reader.java:44-46 | the bytes from a group boundary start with that group, followed by the groups after it |
| Reader.LoadBTreeAsBinary | reader.java:35-51 | a missing file gives an empty map; otherwise each group in file order is put into the map, a later key overwriting an earlier one |
| Reader.LoadedSize | reader.java:47 | the map has at most len / 12 entries, rounded down |
| Reader.GroupsOfEncoding | reader.java:44-46 | the groups written for a list, followed by fewer than 12 extra bytes, parse back to that list |
| Reader.ParseEncoded | reader.java:44-47 | parsing the groups written for a list gives exactly its keys, each with its last value in the list |
| Reader.Window | reader.java:65-66 | one read returns at least 1 and at most 100 bytes from the offset, stopping only at the buffer's size or at the end of the file |
| Reader.WindowHoldsRecord | reader.java:65-68 | a record of at most 100 bytes at the offset is read in full |
| Reader.ReadDataByRecordNumber | reader.java:54-75 | an absent key is "not found" and reads nothing; a missing file or a negative offset is an I/O error; at or past the end of the file the record is empty; otherwise it holds exactly the min(100, length - offset) bytes at the offset |

## Left out

- gob's byte format (capture.go:96-97, capture.go:117-118,
  analysis.go:54-55, analysis.go:87-89) is a foreign library. The model's
  own self-delimiting encoding stands in for it, so the encoded sizes
  (55 bytes per frame record, 19 per change record) and the offsets derived
  from them are the model's, not gob's.
- gob's per-encoder type descriptors, and `gobRegisterRecords`
  (common.go:70-75), are not modelled. Registration shows up only as the
  set of struct variants the decoder accepts.
- google/btree internals, including degree 2, are not modelled; only the
  observable ordered-map behaviour is.
- File I/O details are left out:
  - Open, Create, Close and `defer` become `Option` files and failure flags.
  - Seek fails only on a negative offset; other seek errors are left out.
  - A failed write leaves the file unchanged; torn (partial) writes are
    left out.
  - An IOException while the Java reader reads an existing index file is
    left out.
  - `RandomAccessFile.read` is taken to fill as much of the buffer as the
    file has.
- `DataInputStream.available()` is taken to be the bytes remaining. Its
  clamping to `Integer.MAX_VALUE` for files over 2 GiB is left out.
- Console output is left out: all printed text, and the Java conversion
  of the read bytes into a `String` (which depends on the charset).
- `randomPal` (analysis.go:117-127) is pseudo-random. Its results are the
  parameter `picks`; its promise of a number in (0, maxRecords] is a
  hypothesis of `AnalysisAfterCapture`.
- The `maxRecords` constant (10000, common.go:10) is a parameter with
  0 <= maxRecords < 2^31 - 1. `maxDisplaySamples` keeps its value 20.
- main.go and the Java `main` are left out; they are fixed paths and calls.
- Go/Java interop is not modelled: the Java reader expects raw 12-byte
  groups, while the Go writer emits gob. The two readers are proved about
  their own formats only.
- `SerializableBTree` (common.go:46-48) is left out; no code uses it.
