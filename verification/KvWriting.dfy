/**
  * The key-value store from what was written: snapshots written from a store, and logs of written
  * batches.
  */
module KvWriting {
  import opened Wrappers
  import opened Sequences
  import opened Varint
  import opened Records
  import opened RecordRoundTrip
  import opened KvStore
  import Segments

  // ---------------------------------------------------------------------------------------
  // Key spaces, and which records decode
  // ---------------------------------------------------------------------------------------

  const KEY_SPACES := ["testing", "consensus", "storage", "cluster", "offset_translator", "usage", "stms",
    "shard_placement"]

  /** The eight key spaces have different names, and all other numbers share one. */
  lemma KeySpacesAre(ks: int, other: int)
    ensures KeySpace(ks) == if 0 <= ks < 8 then KEY_SPACES[ks] else "unknown"
    ensures 0 <= ks < 8 && KeySpace(ks) == KeySpace(other) ==> ks == other
  {
    assert KEY_SPACES[0][0] == 't' && KEY_SPACES[1][2] == 'n' && KEY_SPACES[2][2] == 'o' && KEY_SPACES[3][1] == 'l';
    assert KEY_SPACES[4][0] == 'o' && KEY_SPACES[5][1] == 's' && KEY_SPACES[6][2] == 'm' && KEY_SPACES[7][2] == 'a';
    assert |KEY_SPACES[0]| == 7 && |KEY_SPACES[1]| == 9 && |KEY_SPACES[2]| == 7 && |KEY_SPACES[3]| == 7;
    assert |KEY_SPACES[4]| == 17 && |KEY_SPACES[5]| == 5 && |KEY_SPACES[6]| == 4 && |KEY_SPACES[7]| == 15;
    assert |"unknown"| == 7 && "unknown"[0] == 'u' && KEY_SPACES[2][0] == 's' && KEY_SPACES[3][0] == 'c';
  }

  /** A flag, and unless it is zero a length that is not below -1. */
  predicate BufferReadable(v: Bytes) {
    |v| >= 1 && (UnpackInt(v[0..1], true) == 0 || (|v| >= 5 && UnpackInt(v[1..5], true) >= -1))
  }

  /** A record is decoded if and only if its batch is of the store's type and has a date, its key is
      not empty, and, in the log, its value is readable. */
  lemma EntryDecodesExactly(isDate: IsDate, batchType: int, firstTs: int, key: Option<Bytes>, value: Option<Bytes>,
                            valueIsOptional: bool)
    ensures DecodeEntry(isDate, batchType, firstTs, key, value, valueIsOptional).Some? <==>
            && batchType == 4 && isDate(firstTs) && OrEmpty(key) != []
            && (valueIsOptional ==> BufferReadable(OrEmpty(value)))
  {
    hide UnpackInt;
  }

  // ---------------------------------------------------------------------------------------
  // Snapshots
  // ---------------------------------------------------------------------------------------

  /** A key and its data, with the key space by number. */
  datatype Write = Write(ks: int, key: Bytes, data: Option<Bytes>)

  function KeyOf(w: Write): Key {
    Key(KeySpace(w.ks), w.key)
  }

  /** Empty data counts as none. */
  function EntryFor(w: Write): Entry {
    Entry(KeyOf(w), if w.data == Some([]) then None else w.data)
  }

  function EntriesFor(ws: seq<Write>): seq<Entry> {
    seq(|ws|, i requires 0 <= i < |ws| => EntryFor(ws[i]))
  }

  /** The record holds the write as a snapshot does: the data as they are. */
  ghost predicate IsSnapshotRecord(r: Record, w: Write) {
    InRange(w.ks, 1, true) && r.key == Some(PackInt(w.ks, 1, true) + w.key) && r.value == w.data
  }

  ghost predicate IsSnapshot(rs: seq<Record>, ws: seq<Write>) {
    |rs| == |ws| && forall i :: 0 <= i < |rs| ==> IsSnapshotRecord(rs[i], ws[i])
  }

  lemma SnapshotEntryIsDecoded(isDate: IsDate, firstTs: int, r: Record, w: Write)
    requires IsSnapshotRecord(r, w) && isDate(firstTs)
    ensures DecodeEntry(isDate, KVSTORE_BATCH, firstTs, r.key, r.value, false) == Some(EntryFor(w))
  {
    hide PackInt, InRange;
    PackedInt(w.ks, 1, true);
    var e := PackInt(w.ks, 1, true);
    var k := e + w.key;
    assert k[0..1] == e && k[1..] == w.key;
  }

  lemma {:induction false} SnapshotIsDecoded(isDate: IsDate, firstTs: int, rs: seq<Record>, ws: seq<Write>)
    requires IsSnapshot(rs, ws) && isDate(firstTs)
    ensures SnapshotEntries(isDate, KVSTORE_BATCH, firstTs, rs) == Some(EntriesFor(ws))
  {
    hide DecodeEntry, IsSnapshotRecord, EntryFor;
    if rs == [] {
      assert EntriesFor(ws) == [];
    } else {
      var n := |rs| - 1;
      SnapshotIsDecoded(isDate, firstTs, rs[..n], ws[..n]);
      SnapshotEntryIsDecoded(isDate, firstTs, rs[n], ws[n]);
      assert EntriesFor(ws) == EntriesFor(ws[..n]) + [EntryFor(ws[n])];
    }
  }

  /** The writes list the keys of the store, each once, in whatever order, with their data. */
  ghost predicate Lists(ws: seq<Write>, kv: Store) {
    && (forall i :: 0 <= i < |ws| ==> KeyOf(ws[i]) in kv && ws[i].data == Some(kv[KeyOf(ws[i])]))
    && (forall i, j :: 0 <= i < j < |ws| ==> KeyOf(ws[i]) != KeyOf(ws[j]))
    && (forall key :: key in kv ==> exists i :: 0 <= i < |ws| && KeyOf(ws[i]) == key)
  }

  /** No key of the store has empty data. */
  ghost predicate NoEmptyData(kv: Store) {
    forall key :: key in kv ==> kv[key] != []
  }

  lemma ReplayedListing(ws: seq<Write>, kv: Store, key: Key)
    requires Lists(ws, kv) && NoEmptyData(kv)
    ensures key in Replay(map[], EntriesFor(ws)) <==> key in kv
    ensures key in kv ==> Replay(map[], EntriesFor(ws))[key] == kv[key]
  {
    hide Replay, KeyOf;
    var es := EntriesFor(ws);
    LastWriterWins(map[], es, key);
    var w := LastWrite(es, key);
    if key in kv {
      var i :| 0 <= i < |ws| && KeyOf(ws[i]) == key;
      assert es[i].key == key;
    }
    if w >= 0 {
      assert es[w] == EntryFor(ws[w]) && KeyOf(ws[w]) == key;
    }
  }

  /** A snapshot written from a store, in any order of its keys, decodes to that store. */
  lemma SnapshotRestoresStore(isDate: IsDate, firstTs: int, rs: seq<Record>, ws: seq<Write>, kv: Store)
    requires IsSnapshot(rs, ws) && isDate(firstTs) && Lists(ws, kv) && NoEmptyData(kv)
    ensures SnapshotEntries(isDate, KVSTORE_BATCH, firstTs, rs).Some?
    ensures Replay(map[], SnapshotEntries(isDate, KVSTORE_BATCH, firstTs, rs).value) == kv
  {
    hide IsSnapshot, Lists, NoEmptyData, SnapshotEntries, EntriesFor, Replay;
    SnapshotIsDecoded(isDate, firstTs, rs, ws);
    forall key
      ensures key in Replay(map[], EntriesFor(ws)) <==> key in kv
      ensures key in kv ==> Replay(map[], EntriesFor(ws))[key] == kv[key]
    {
      ReplayedListing(ws, kv, key);
    }
  }

  /** Replaying never stores empty data. */
  lemma {:induction false} ReplayStoresData(kv: Store, es: seq<Entry>)
    requires NoEmptyData(kv) && forall i :: 0 <= i < |es| ==> es[i].data != Some([])
    ensures NoEmptyData(Replay(kv, es))
  {
    if es != [] { ReplayStoresData(kv, es[..|es| - 1]); }
  }

  lemma {:induction false} LogEntriesHaveData(isDate: IsDate, since: Option<int>, log: seq<LogRecord>)
    requires LogEntries(isDate, since, log).Some?
    ensures var es := LogEntries(isDate, since, log).value;
            forall i :: 0 <= i < |es| ==> es[i].data != Some([])
  {
    hide GetOptionalBuffer, KeySpace, UnpackInt;
    if log != [] { LogEntriesHaveData(isDate, since, log[..|log| - 1]); }
  }

  /** A snapshot written from the store of all records up to S, and any log still holding every later
      record, decode to the store of the full log. */
  lemma WrittenSnapshotPlusLog(isDate: IsDate, full: seq<LogRecord>, kept: seq<LogRecord>, s: int, firstTs: int,
                               rs: seq<Record>, ws: seq<Write>)
    requires InOffsetOrder(full) && LogEntries(isDate, None, full).Some? && After(s, kept) == After(s, full)
    requires IsSnapshot(rs, ws) && isDate(firstTs)
    requires Decoded(isDate, None, UpTo(s, full)).Some? && Lists(ws, Decoded(isDate, None, UpTo(s, full)).value)
    ensures Decoded(isDate, Some(Snapshot(s, KVSTORE_BATCH, firstTs, rs)), kept) == Decoded(isDate, None, full)
  {
    hide LogEntries, Replay, SnapshotEntries, IsSnapshot, Lists, After, UpTo, InOffsetOrder;
    var kv := Decoded(isDate, None, UpTo(s, full)).value;
    LogParts(isDate, full, s);
    var es := LogEntries(isDate, None, UpTo(s, full)).value;
    LogEntriesHaveData(isDate, None, UpTo(s, full));
    assert NoEmptyData(map[]);
    ReplayStoresData(map[], es);
    SnapshotRestoresStore(isDate, firstTs, rs, ws, kv);
    SnapshotPlusLogIsFullLog(isDate, full, kept, Snapshot(s, KVSTORE_BATCH, firstTs, rs));
  }

  // ---------------------------------------------------------------------------------------
  // Written logs
  // ---------------------------------------------------------------------------------------

  /** The record holds the write as the log does: the data as an optional buffer. */
  ghost predicate IsLogRecord(r: Record, w: Write) {
    && InRange(r.attrs, 1, true) && InRange(w.ks, 1, true) && (w.data.Some? ==> InRange(|w.data.value|, 4, true))
    && r.key == Some(PackInt(w.ks, 1, true) + w.key) && r.value == Some(EncodeOptionalBuffer(w.data))
  }

  /** A batch of the log and what it writes. */
  datatype LogBatch = LogBatch(batch: Segments.Batch, records: seq<Record>, writes: seq<Write>)

  ghost predicate IsWritten(isDate: IsDate, b: LogBatch) {
    var h := b.batch.header;
    && h.type_ == 4 && isDate(h.firstTs) && h.recordCount == |b.records| == |b.writes|
    && (forall i :: 0 <= i < |b.records| ==> IsLogRecord(b.records[i], b.writes[i]))
    && b.batch.records == (AttrsOfWritten(b.records, b.writes); EncodeRecords(b.records))
  }

  lemma AttrsOfWritten(rs: seq<Record>, ws: seq<Write>)
    requires |rs| == |ws| && forall i :: 0 <= i < |rs| ==> IsLogRecord(rs[i], ws[i])
    ensures AttrsFit(rs)
  {
    hide InRange;
  }

  /** The writes of a batch from record `0` to `n` that are newer than the snapshot. */
  function NewWrites(since: Option<int>, b: LogBatch, n: nat): seq<Entry>
    requires n <= |b.records| == |b.writes|
  {
    if n == 0 then []
    else
      var offset := b.batch.header.baseOffset + b.records[n - 1].offsetDelta;
      NewWrites(since, b, n - 1) +
      (if since.Some? && offset <= since.value then [] else [EntryFor(b.writes[n - 1])])
  }

  /** The writes of a segment, in order. */
  function SegmentWrites(since: Option<int>, bs: seq<LogBatch>): seq<Entry>
    requires forall i :: 0 <= i < |bs| ==> |bs[i].records| == |bs[i].writes|
  {
    if bs == [] then []
    else
      var b := bs[|bs| - 1];
      SegmentWrites(since, bs[..|bs| - 1]) + NewWrites(since, b, |b.records|)
  }

  function AllWrites(since: Option<int>, segments: seq<seq<LogBatch>>): seq<Entry>
    requires forall i, j :: 0 <= i < |segments| && 0 <= j < |segments[i]| ==>
             |segments[i][j].records| == |segments[i][j].writes|
  {
    if segments == [] then []
    else AllWrites(since, segments[..|segments| - 1]) + SegmentWrites(since, segments[|segments| - 1])
  }

  function BatchesOf(bs: seq<LogBatch>): seq<Segments.Batch> {
    seq(|bs|, i requires 0 <= i < |bs| => bs[i].batch)
  }

  ghost predicate AllWritten(isDate: IsDate, bs: seq<LogBatch>) {
    forall i :: 0 <= i < |bs| ==> IsWritten(isDate, bs[i])
  }

  /** A written record is seen as it is: neither its key nor its value is empty. */
  lemma SeenAsWritten(r: Record, w: Write)
    requires IsLogRecord(r, w)
    ensures Seen(r) == r
  {
    hide PackInt, InRange;
  }

  lemma WrittenBatchIsRead(isDate: IsDate, b: LogBatch)
    requires IsWritten(isDate, b)
    ensures var h := b.batch.header;
            ReadBatch(b.batch) == Some(KvBatch(h.baseOffset, 4, h.firstTs, b.records))
  {
    hide EncodeRecords, GetRecords, IsLogRecord;
    AttrsOfWritten(b.records, b.writes);
    RecordsRoundTrip(b.records);
    forall i | 0 <= i < |b.records|
      ensures AllSeen(b.records)[i] == b.records[i]
    {
      SeenAsWritten(b.records[i], b.writes[i]);
    }
    assert AllSeen(b.records) == b.records;
  }

  lemma {:induction false} WrittenBatchEntries(isDate: IsDate, since: Option<int>, b: LogBatch, kb: KvBatch, n: nat)
    requires IsWritten(isDate, b) && n <= |b.records|
    requires kb == KvBatch(b.batch.header.baseOffset, 4, b.batch.header.firstTs, b.records)
    ensures LogEntries(isDate, since, BatchLog(kb)[..n]) == Some(NewWrites(since, b, n))
  {
    hide DecodeEntry, IsLogRecord, EntryFor;
    if n > 0 {
      var log, i := BatchLog(kb), n - 1;
      WrittenBatchEntries(isDate, since, b, kb, i);
      assert log[..n][..i] == log[..i];
      LogEntryIsDecoded(isDate, b.batch.header.firstTs, b.records[i], b.writes[i]);
      assert NewWrites(since, b, i) + [] == NewWrites(since, b, i);
    }
  }

  lemma LogEntryIsDecoded(isDate: IsDate, firstTs: int, r: Record, w: Write)
    requires IsLogRecord(r, w) && isDate(firstTs)
    ensures DecodeEntry(isDate, 4, firstTs, r.key, r.value, true) == Some(EntryFor(w))
  {
    hide DecodeEntry, InRange, PackInt, EncodeOptionalBuffer;
    EntryIsDecoded(isDate, firstTs, w.ks, w.key, w.data);
  }

  lemma {:induction false} WrittenSegment(isDate: IsDate, since: Option<int>, bs: seq<LogBatch>)
    requires AllWritten(isDate, bs)
    ensures ReadBatches(BatchesOf(bs)).Some?
    ensures LogEntries(isDate, since, BatchesLog(ReadBatches(BatchesOf(bs)).value)) == Some(SegmentWrites(since, bs))
  {
    hide LogEntries, ReadBatch, ReadBatches, BatchesOf, BatchLog, BatchesLog, NewWrites, SegmentWrites, IsWritten;
    if bs == [] {
      NoBatches(isDate, since);
    } else {
      var rest, b := bs[..|bs| - 1], bs[|bs| - 1];
      assert IsWritten(isDate, b);
      WrittenSegment(isDate, since, rest);
      WrittenBatchIsRead(isDate, b);
      BatchesSnoc(bs);
      var kbs, kb := ReadBatches(BatchesOf(rest)).value, ReadBatch(b.batch).value;
      BatchesLogSnoc(kbs, kb);
      WholeBatchEntries(isDate, since, b, kb);
      WritesSnoc(isDate, since, bs);
      LogEntriesConcat(isDate, since, BatchesLog(kbs), BatchLog(kb));
    }
  }

  lemma NoBatches(isDate: IsDate, since: Option<int>)
    ensures ReadBatches(BatchesOf([])) == Some([]) && BatchesLog([]) == [] && LogEntries(isDate, since, []) == Some([])
    ensures SegmentWrites(since, []) == []
  {
  }

  lemma BatchesSnoc(bs: seq<LogBatch>)
    requires bs != []
    ensures var rest, b := bs[..|bs| - 1], bs[|bs| - 1];
            ReadBatches(BatchesOf(bs)) ==
            match (ReadBatches(BatchesOf(rest)), ReadBatch(b.batch))
            case (Some(kbs), Some(kb)) => Some(kbs + [kb])
            case _ => None
  {
    hide ReadBatch;
    var n := |bs| - 1;
    assert BatchesOf(bs)[..n] == BatchesOf(bs[..n]) && BatchesOf(bs)[n] == bs[n].batch;
  }

  lemma BatchesLogSnoc(kbs: seq<KvBatch>, kb: KvBatch)
    ensures BatchesLog(kbs + [kb]) == BatchesLog(kbs) + BatchLog(kb)
  {
    hide BatchLog;
    assert (kbs + [kb])[..|kbs|] == kbs;
  }

  lemma WritesSnoc(isDate: IsDate, since: Option<int>, bs: seq<LogBatch>)
    requires bs != [] && AllWritten(isDate, bs)
    ensures var rest, b := bs[..|bs| - 1], bs[|bs| - 1];
            SegmentWrites(since, bs) == SegmentWrites(since, rest) + NewWrites(since, b, |b.records|)
  {
    hide NewWrites;
  }

  lemma WholeBatchEntries(isDate: IsDate, since: Option<int>, b: LogBatch, kb: KvBatch)
    requires IsWritten(isDate, b) && kb == KvBatch(b.batch.header.baseOffset, 4, b.batch.header.firstTs, b.records)
    ensures LogEntries(isDate, since, BatchLog(kb)) == Some(NewWrites(since, b, |b.records|))
  {
    WrittenBatchEntries(isDate, since, b, kb, |b.records|);
    assert BatchLog(kb)[..|b.records|] == BatchLog(kb);
  }

  ghost predicate AllSegmentsWritten(isDate: IsDate, segments: seq<seq<LogBatch>>) {
    forall i :: 0 <= i < |segments| ==> AllWritten(isDate, segments[i])
  }

  function SegmentBatches(segments: seq<seq<LogBatch>>): seq<seq<Segments.Batch>> {
    seq(|segments|, i requires 0 <= i < |segments| => BatchesOf(segments[i]))
  }

  lemma {:induction false} WrittenSegments(isDate: IsDate, since: Option<int>, segments: seq<seq<LogBatch>>)
    requires AllSegmentsWritten(isDate, segments)
    ensures ReadSegments(SegmentBatches(segments)).Some?
    ensures LogEntries(isDate, since, SegmentsLog(ReadSegments(SegmentBatches(segments)).value)) ==
            Some(AllWrites(since, segments))
  {
    hide LogEntries, ReadBatches, BatchesLog, SegmentWrites, BatchesOf;
    if segments == [] {
      EmptyLog(isDate, since);
    } else {
      var n := |segments| - 1;
      var lists := SegmentBatches(segments);
      WrittenSegments(isDate, since, segments[..n]);
      assert lists[..n] == SegmentBatches(segments[..n]) && lists[n] == BatchesOf(segments[n]);
      assert AllWritten(isDate, segments[n]);
      WrittenSegment(isDate, since, segments[n]);
      var ss, bs := ReadSegments(lists[..n]).value, ReadBatches(lists[n]).value;
      assert ReadSegments(lists) == Some(ss + [bs]);
      SegmentsLogSnoc(ss, bs);
      LogEntriesConcat(isDate, since, SegmentsLog(ss), BatchesLog(bs));
    }
  }

  /** Files of written batches, with a snapshot written from a store, decode to that store with the
      writes whose offset is beyond the snapshot replayed in order. */
  lemma WrittenLogDecodes(isDate: IsDate, crc: Segments.Crc, s: int, firstTs: int, rs: seq<Record>, ws: seq<Write>,
                          kv: Store,
                          segments: seq<seq<LogBatch>>, files: seq<Bytes>)
    requires IsSnapshot(rs, ws) && isDate(firstTs) && Lists(ws, kv) && NoEmptyData(kv)
    requires AllSegmentsWritten(isDate, segments) && |files| == |segments|
    requires forall i :: 0 <= i < |segments| ==> Segments.AllWellFormed(crc, BatchesOf(segments[i]))
    requires forall i :: 0 <= i < |files| ==> files[i] == Segments.EncodeSegment(crc, BatchesOf(segments[i]))
    ensures DecodedFiles(isDate, crc, Some(Snapshot(s, KVSTORE_BATCH, firstTs, rs)), files) ==
            Some(Replay(kv, AllWrites(Some(s), segments)))
    ensures DecodedFiles(isDate, crc, None, files) == Some(Replay(map[], AllWrites(None, segments)))
  {
    hide IsSnapshot, Lists, NoEmptyData, SnapshotEntries, LogEntries, Replay, AllWrites, ReadFiles, ReadSegments;
    hide Segments.EncodeSegment, Segments.AllWellFormed, Segments.AllBatches, SegmentsLog, BatchesOf;
    SnapshotRestoresStore(isDate, firstTs, rs, ws, kv);
    WrittenSegments(isDate, Some(s), segments);
    WrittenSegments(isDate, None, segments);
    var lists := SegmentBatches(segments);
    forall i | 0 <= i < |files|
      ensures Segments.AllBatches(crc, files[i], 0) == (lists[i], Segments.Quiet)
    {
      Segments.ZeroFilledLogYieldsAllBatches(crc, lists[i], 0);
      assert files[i] + Segments.Zeros(0) == files[i];
    }
    FilesHoldBatches(crc, files, lists);
  }
}
