/**
  * Rebuilding a node's key-value store from its snapshot and its log.
  */
module KvStore {
  import opened Wrappers
  import opened Varint
  import opened Records
  import opened RecordRoundTrip
  import Segments

  type Bytes = seq<byte>

  datatype Key = Key(space: string, buf: Bytes)

  /** One write; no data means deletion. */
  datatype Entry = Entry(key: Key, data: Option<Bytes>)

  type Store = map<Key, Bytes>

  /** Whether a timestamp is within the range of dates, so that it can be shown. */
  type IsDate = int -> bool

  // ---------------------------------------------------------------------------------------
  // Decoding records
  // ---------------------------------------------------------------------------------------

  const KVSTORE_BATCH := 4

  function KeySpace(ks: int): string {
    if ks == 0 then "testing" else if ks == 1 then "consensus" else if ks == 2 then "storage"
    else if ks == 3 then "cluster" else if ks == 4 then "offset_translator" else if ks == 5 then "usage"
    else if ks == 6 then "stms" else if ks == 7 then "shard_placement" else "unknown"
  }

  /** An optional buffer: a flag, and if it is not zero a length and the bytes. */
  function GetOptionalBuffer(v: Bytes): Option<Option<Bytes>> {
    match GetInt(v, 0, 1, true)
    case None => None
    case Some((present, p)) =>
      if present == 0 then Some(None)
      else
        match GetInt(v, p, 4, true)
        case None => None
        case Some((n, q)) =>
          match GetBytes(v, q, n)
          case None => None
          case Some((bs, _)) => Some(Some(bs))
  }

  /** Empty data counts as no data.  No result stands for an exception. */
  function DecodeEntry(isDate: IsDate, batchType: int, firstTs: int, key: Option<Bytes>, value: Option<Bytes>,
                       valueIsOptional: bool): Option<Entry>
  {
    if batchType != KVSTORE_BATCH || !isDate(firstTs) then None
    else
      var k := OrEmpty(key);
      match GetInt(k, 0, 1, true)
      case None => None
      case Some((ks, p)) =>
        match (if valueIsOptional then GetOptionalBuffer(OrEmpty(value)) else Some(value))
        case None => None
        case Some(data) => Some(Entry(Key(KeySpace(ks), k[p..]), if data == Some([]) then None else data))
  }

  /** An optional buffer as it is written. */
  function EncodeOptionalBuffer(data: Option<Bytes>): Bytes
    requires data.Some? ==> InRange(|data.value|, 4, true)
  {
    match data
    case None => [0]
    case Some(d) => [1] + (PackInt(|d|, 4, true) + d)
  }

  lemma SmallInt(b: byte)
    requires b < 128
    ensures InRange(b, 1, true) && PackInt(b, 1, true) == [b] && UnpackInt([b], true) == b
  {
    assert FromLittleEndian([b]) == b by { assert [b][1..] == []; }
    assert Pow256(1) == 256 * Pow256(0);
    PackedInt(b, 1, true);
    assert LittleEndian(b, 1) == [b] + LittleEndian(0, 0);
  }

  lemma OptionalBufferRoundTrip(data: Option<Bytes>)
    requires data.Some? ==> InRange(|data.value|, 4, true)
    ensures GetOptionalBuffer(EncodeOptionalBuffer(data)) == Some(data)
  {
    var v := EncodeOptionalBuffer(data);
    SmallInt(0);
    SmallInt(1);
    assert v[0..1] == [v[0]];
    match data {
      case None =>
      case Some(d) =>
        var n := PackInt(|d|, 4, true);
        PackedInt(|d|, 4, true);
        assert v[1..5] == n && v[5..] == d;
        assert Holds(v, 5, d);
        BytesAt(v, 5, d);
    }
  }

  /** A written entry is decoded to its key space, key and data, whatever the key space; empty data
      becomes a deletion. */
  lemma EntryIsDecoded(isDate: IsDate, firstTs: int, ks: int, key: Bytes, data: Option<Bytes>)
    requires InRange(ks, 1, true) && isDate(firstTs) && (data.Some? ==> InRange(|data.value|, 4, true))
    ensures DecodeEntry(isDate, KVSTORE_BATCH, firstTs, Some(PackInt(ks, 1, true) + key),
                        Some(EncodeOptionalBuffer(data)), true) ==
            Some(Entry(Key(KeySpace(ks), key), if data == Some([]) then None else data))
  {
    hide GetOptionalBuffer, EncodeOptionalBuffer, PackInt, InRange;
    PackedInt(ks, 1, true);
    OptionalBufferRoundTrip(data);
    var e := PackInt(ks, 1, true);
    var k := e + key;
    assert k[0..1] == e && k[1..] == key;
  }

  // ---------------------------------------------------------------------------------------
  // Replaying writes
  // ---------------------------------------------------------------------------------------

  function ApplyEntry(kv: Store, e: Entry): Store {
    match e.data
    case Some(d) => kv[e.key := d]
    case None => kv - {e.key}
  }

  function Replay(kv: Store, es: seq<Entry>): Store {
    if es == [] then kv else ApplyEntry(Replay(kv, es[..|es| - 1]), es[|es| - 1])
  }

  datatype LogRecord = LogRecord(offset: int, batchType: int, firstTs: int, key: Option<Bytes>, value: Option<Bytes>)

  datatype KvBatch = KvBatch(baseOffset: int, batchType: int, firstTs: int, records: seq<Record>)

  datatype Snapshot = Snapshot(lastOffset: int, batchType: int, firstTs: int, records: seq<Record>)

  /** The writes of a snapshot, or nothing if one of its records raises. */
  function SnapshotEntries(isDate: IsDate, batchType: int, firstTs: int, rs: seq<Record>): Option<seq<Entry>> {
    if rs == [] then Some([])
    else
      match (SnapshotEntries(isDate, batchType, firstTs, rs[..|rs| - 1]),
             DecodeEntry(isDate, batchType, firstTs, rs[|rs| - 1].key, rs[|rs| - 1].value, false))
      case (Some(es), Some(e)) => Some(es + [e])
      case _ => None
  }

  /** The writes of a log that a snapshot at `since` leaves to be replayed. */
  function LogEntries(isDate: IsDate, since: Option<int>, log: seq<LogRecord>): Option<seq<Entry>> {
    if log == [] then Some([])
    else
      var r := log[|log| - 1];
      match LogEntries(isDate, since, log[..|log| - 1])
      case None => None
      case Some(es) =>
        if since.Some? && r.offset <= since.value then Some(es)
        else
          match DecodeEntry(isDate, r.batchType, r.firstTs, r.key, r.value, true)
          case None => None
          case Some(e) => Some(es + [e])
  }

  function BatchLog(b: KvBatch): seq<LogRecord> {
    seq(|b.records|, i requires 0 <= i < |b.records| =>
      LogRecord(b.baseOffset + b.records[i].offsetDelta, b.batchType, b.firstTs, b.records[i].key, b.records[i].value))
  }

  function BatchesLog(bs: seq<KvBatch>): seq<LogRecord> {
    if bs == [] then [] else BatchesLog(bs[..|bs| - 1]) + BatchLog(bs[|bs| - 1])
  }

  /** The records of all segments in order. */
  function SegmentsLog(segments: seq<seq<KvBatch>>): seq<LogRecord> {
    if segments == [] then [] else SegmentsLog(segments[..|segments| - 1]) + BatchesLog(segments[|segments| - 1])
  }

  /** The records of a batch, or nothing if iterating over them raises. */
  function ReadBatch(b: Segments.Batch): Option<KvBatch> {
    if b.header.recordCount < 0 then None
    else
      match GetRecords(b.records, 0, b.header.recordCount)
      case None => None
      case Some((rs, _)) => Some(KvBatch(b.header.baseOffset, b.header.type_, b.header.firstTs, rs))
  }

  function ReadBatches(bs: seq<Segments.Batch>): Option<seq<KvBatch>> {
    if bs == [] then Some([])
    else
      match (ReadBatches(bs[..|bs| - 1]), ReadBatch(bs[|bs| - 1]))
      case (Some(kbs), Some(b)) => Some(kbs + [b])
      case _ => None
  }

  function ReadSegments(segments: seq<seq<Segments.Batch>>): Option<seq<seq<KvBatch>>> {
    if segments == [] then Some([])
    else
      match (ReadSegments(segments[..|segments| - 1]), ReadBatches(segments[|segments| - 1]))
      case (Some(ss), Some(bs)) => Some(ss + [bs])
      case _ => None
  }

  /** The batches of a segment file, or nothing if reading them raises. */
  function ReadFile(crc: Segments.Crc, file: Bytes): Option<seq<KvBatch>> {
    var (bs, end) := Segments.AllBatches(crc, file, 0);
    if end.Quiet? then ReadBatches(bs) else None
  }

  function ReadFiles(crc: Segments.Crc, files: seq<Bytes>): Option<seq<seq<KvBatch>>> {
    if files == [] then Some([])
    else
      match (ReadFiles(crc, files[..|files| - 1]), ReadFile(crc, files[|files| - 1]))
      case (Some(ss), Some(bs)) => Some(ss + [bs])
      case _ => None
  }

  /** What decoding leaves in an empty store, or nothing if it raises. */
  function Decoded(isDate: IsDate, snapshot: Option<Snapshot>, log: seq<LogRecord>): Option<Store> {
    match snapshot
    case None => (match LogEntries(isDate, None, log) case None => None case Some(es) => Some(Replay(map[], es)))
    case Some(s) =>
      match (SnapshotEntries(isDate, s.batchType, s.firstTs, s.records), LogEntries(isDate, Some(s.lastOffset), log))
      case (Some(es1), Some(es2)) => Some(Replay(Replay(map[], es1), es2))
      case _ => None
  }

  /** Decoding from the segment files. */
  function DecodedFiles(isDate: IsDate, crc: Segments.Crc, snapshot: Option<Snapshot>,
                        files: seq<Bytes>): Option<Store> {
    match ReadFiles(crc, files)
    case None => None
    case Some(segments) => Decoded(isDate, snapshot, SegmentsLog(segments))
  }

  lemma {:induction false} ReplayConcat(kv: Store, es1: seq<Entry>, es2: seq<Entry>)
    ensures Replay(kv, es1 + es2) == Replay(Replay(kv, es1), es2)
  {
    if es2 == [] {
      assert es1 + es2 == es1;
    } else {
      var n := |es2| - 1;
      ReplayConcat(kv, es1, es2[..n]);
      assert (es1 + es2)[..|es1| + n] == es1 + es2[..n];
    }
  }

  lemma {:induction false} LogEntriesConcat(isDate: IsDate, since: Option<int>, l1: seq<LogRecord>, l2: seq<LogRecord>)
    ensures LogEntries(isDate, since, l1 + l2) ==
            match (LogEntries(isDate, since, l1), LogEntries(isDate, since, l2))
            case (Some(es1), Some(es2)) => Some(es1 + es2)
            case _ => None
    decreases |l2|
  {
    hide DecodeEntry;
    if l2 == [] {
      assert l1 + l2 == l1;
      match LogEntries(isDate, since, l1) case None => case Some(es) => assert es + [] == es;
    } else {
      var n := |l2| - 1;
      LogEntriesConcat(isDate, since, l1, l2[..n]);
      assert (l1 + l2)[..|l1| + n] == l1 + l2[..n];
      match (LogEntries(isDate, since, l1), LogEntries(isDate, since, l2[..n]),
        DecodeEntry(isDate, l2[n].batchType, l2[n].firstTs, l2[n].key, l2[n].value, true))
      case (Some(a), Some(b), Some(e)) => assert a + (b + [e]) == (a + b) + [e];
      case _ =>
    }
  }

  // ---------------------------------------------------------------------------------------
  // The store
  // ---------------------------------------------------------------------------------------

  class KvStore {
    const isDate: IsDate
    var kv: Store

    constructor (isDate: IsDate)
      ensures kv == map[] && this.isDate == isDate
    {
      this.isDate := isDate;
      kv := map[];
    }

    method Apply(e: Entry)
      modifies this
      ensures kv == ApplyEntry(old(kv), e)
    {
      match e.data
      case Some(d) => kv := kv[e.key := d];
      case None => kv := kv - {e.key};
    }

    method LoadSnapshot(batchType: int, firstTs: int, records: seq<Record>) returns (ok: bool)
      modifies this
      ensures ok <==> SnapshotEntries(isDate, batchType, firstTs, records).Some?
      ensures ok ==> kv == Replay(old(kv), SnapshotEntries(isDate, batchType, firstTs, records).value)
    {
      hide DecodeEntry;
      for i := 0 to |records|
        invariant SnapshotEntries(isDate, batchType, firstTs, records[..i]).Some?
        invariant kv == Replay(old(kv), SnapshotEntries(isDate, batchType, firstTs, records[..i]).value)
      {
        assert records[..i + 1][..i] == records[..i];
        match DecodeEntry(isDate, batchType, firstTs, records[i].key, records[i].value, false) {
          case None =>
            SnapshotRaises(isDate, batchType, firstTs, records, i + 1);
            return false;
          case Some(e) =>
            ghost var es := SnapshotEntries(isDate, batchType, firstTs, records[..i]).value;
            assert (es + [e])[..|es|] == es;
            Apply(e);
        }
      }
      assert records[..|records|] == records;
      return true;
    }

    /** The records of one batch. */
    method ReplayBatch(since: Option<int>, b: KvBatch) returns (ok: bool)
      modifies this
      ensures ok <==> LogEntries(isDate, since, BatchLog(b)).Some?
      ensures ok ==> kv == Replay(old(kv), LogEntries(isDate, since, BatchLog(b)).value)
    {
      hide DecodeEntry;
      ghost var log := BatchLog(b);
      for i := 0 to |b.records|
        invariant LogEntries(isDate, since, log[..i]).Some?
        invariant kv == Replay(old(kv), LogEntries(isDate, since, log[..i]).value)
      {
        assert log[..i + 1][..i] == log[..i];
        var r := b.records[i];
        var offset := b.baseOffset + r.offsetDelta;
        if since.Some? && offset <= since.value {
          continue;
        }
        match DecodeEntry(isDate, b.batchType, b.firstTs, r.key, r.value, true) {
          case None =>
            LogRaises(isDate, since, log, i + 1);
            return false;
          case Some(e) =>
            ghost var es := LogEntries(isDate, since, log[..i]).value;
            assert (es + [e])[..|es|] == es;
            Apply(e);
        }
      }
      assert log[..|log|] == log;
      return true;
    }

    /** The batches of one segment. */
    method ReplaySegment(since: Option<int>, bs: seq<KvBatch>) returns (ok: bool)
      modifies this
      ensures ok <==> LogEntries(isDate, since, BatchesLog(bs)).Some?
      ensures ok ==> kv == Replay(old(kv), LogEntries(isDate, since, BatchesLog(bs)).value)
    {
      hide LogEntries, BatchLog;
      EmptyLog(isDate, since);
      for i := 0 to |bs|
        invariant LogEntries(isDate, since, BatchesLog(bs[..i])).Some?
        invariant kv == Replay(old(kv), LogEntries(isDate, since, BatchesLog(bs[..i])).value)
      {
        assert bs[..i + 1][..i] == bs[..i];
        LogEntriesConcat(isDate, since, BatchesLog(bs[..i]), BatchLog(bs[i]));
        ok := ReplayBatch(since, bs[i]);
        if !ok {
          BatchesRaise(isDate, since, bs, i + 1);
          return false;
        }
        ReplayConcat(old(kv), LogEntries(isDate, since, BatchesLog(bs[..i])).value,
          LogEntries(isDate, since, BatchLog(bs[i])).value);
      }
      assert bs[..|bs|] == bs;
      return true;
    }

    /** The whole decoding, starting from an empty store. */
    method Decode(crc: Segments.Crc, snapshot: Option<Snapshot>, files: seq<Bytes>) returns (ok: bool)
      requires kv == map[]
      modifies this
      ensures ok <==> DecodedFiles(isDate, crc, snapshot, files).Some?
      ensures ok ==> DecodedFiles(isDate, crc, snapshot, files) == Some(kv)
    {
      hide LogEntries, BatchesLog, SnapshotEntries, ReadFile, SegmentsLog, ReadFiles;
      var since: Option<int> := None;
      if snapshot.Some? {
        since := Some(snapshot.value.lastOffset);
        ok := LoadSnapshot(snapshot.value.batchType, snapshot.value.firstTs, snapshot.value.records);
        if !ok {
          return false;
        }
      }
      ghost var loaded := kv;
      EmptyLog(isDate, since);
      NoFiles(crc, files);
      for i := 0 to |files|
        invariant ReadFiles(crc, files[..i]).Some?
        invariant Logged(isDate, since, ReadFiles(crc, files[..i]).value).Some?
        invariant kv == Replay(loaded, Logged(isDate, since, ReadFiles(crc, files[..i]).value).value)
      {
        ghost var before := ReadFiles(crc, files[..i]).value;
        OneMoreFile(isDate, crc, since, files, i);
        var bs := LoadFile(crc, files[i]);
        if bs.None? {
          FilesRaise(isDate, crc, since, files, i + 1);
          return false;
        }
        ok := ReplaySegment(since, bs.value);
        if !ok {
          FilesRaise(isDate, crc, since, files, i + 1);
          return false;
        }
        ReplayConcat(loaded, Logged(isDate, since, before).value,
          LogEntries(isDate, since, BatchesLog(bs.value)).value);
      }
      assert files[..|files|] == files;
      return true;
    }
  }

  /** Reads the batches of a segment file and their records. */
  method LoadFile(crc: Segments.Crc, file: Bytes) returns (r: Option<seq<KvBatch>>)
    ensures r == ReadFile(crc, file)
  {
    hide ReadBatches, Segments.AllBatches;
    var it := new Segments.BatchIterator(crc, file, 0);
    var labelled, end := it.Collect();
    if !end.Quiet? {
      return None;
    }
    r := LoadBatches(labelled, Segments.AllBatches(crc, file, 0).0);
  }

  method LoadBatches(labelled: seq<Segments.Labelled>, ghost batches: seq<Segments.Batch>)
    returns (r: Option<seq<KvBatch>>)
    requires |labelled| == |batches| && forall i :: 0 <= i < |labelled| ==> labelled[i].batch == batches[i]
    ensures r == ReadBatches(batches)
  {
    hide ReadBatch;
    var bs: seq<KvBatch> := [];
    for i := 0 to |labelled|
      invariant ReadBatches(batches[..i]) == Some(bs)
    {
      assert batches[..i + 1][..i] == batches[..i];
      var b := LoadBatch(labelled[i].batch);
      if b.None? {
        BatchesUnreadable(batches, i + 1);
        return None;
      }
      bs := bs + [b.value];
    }
    assert batches[..|batches|] == batches;
    return Some(bs);
  }

  method LoadBatch(b: Segments.Batch) returns (r: Option<KvBatch>)
    ensures r == ReadBatch(b)
  {
    var it := new RecordIter(b.header.recordCount, b.records);
    var rs := it.Collect();
    return if rs.Some? then Some(KvBatch(b.header.baseOffset, b.header.type_, b.header.firstTs, rs.value)) else None;
  }

  lemma {:induction false} BatchesUnreadable(bs: seq<Segments.Batch>, n: nat)
    requires n <= |bs| && ReadBatches(bs[..n]).None?
    ensures ReadBatches(bs).None?
    decreases |bs| - n
  {
    if n < |bs| {
      assert bs[..n + 1][..n] == bs[..n];
      BatchesUnreadable(bs, n + 1);
    } else {
      assert bs[..n] == bs;
    }
  }

  /** The writes of all segments. */
  function Logged(isDate: IsDate, since: Option<int>, segments: seq<seq<KvBatch>>): Option<seq<Entry>> {
    LogEntries(isDate, since, SegmentsLog(segments))
  }

  lemma NoFiles(crc: Segments.Crc, files: seq<Bytes>)
    ensures ReadFiles(crc, files[..0]) == Some([]) && SegmentsLog([]) == []
  {
  }

  /** One more file adds its writes, if it is readable and its writes decode. */
  lemma OneMoreFile(isDate: IsDate, crc: Segments.Crc, since: Option<int>, files: seq<Bytes>, i: nat)
    requires i < |files| && ReadFiles(crc, files[..i]).Some?
             && Logged(isDate, since, ReadFiles(crc, files[..i]).value).Some?
    ensures ReadFiles(crc, files[..i + 1]).Some? <==> ReadFile(crc, files[i]).Some?
    ensures ReadFile(crc, files[i]).Some? ==>
              var before := Logged(isDate, since, ReadFiles(crc, files[..i]).value).value;
              Logged(isDate, since, ReadFiles(crc, files[..i + 1]).value) ==
              match LogEntries(isDate, since, BatchesLog(ReadFile(crc, files[i]).value))
              case None => None
              case Some(es) => Some(before + es)
  {
    hide ReadFile, ReadFiles, LogEntries, BatchesLog, SegmentsLog;
    ReadFilesSnoc(crc, files, i);
    if ReadFile(crc, files[i]).Some? {
      var segments, bs := ReadFiles(crc, files[..i]).value, ReadFile(crc, files[i]).value;
      SegmentsLogSnoc(segments, bs);
      LogEntriesConcat(isDate, since, SegmentsLog(segments), BatchesLog(bs));
    }
  }

  lemma ReadFilesSnoc(crc: Segments.Crc, files: seq<Bytes>, i: nat)
    requires i < |files|
    ensures ReadFiles(crc, files[..i + 1]) ==
            match (ReadFiles(crc, files[..i]), ReadFile(crc, files[i]))
            case (Some(ss), Some(bs)) => Some(ss + [bs])
            case _ => None
  {
    hide ReadFile;
    assert files[..i + 1][..i] == files[..i];
  }

  lemma SegmentsLogSnoc(segments: seq<seq<KvBatch>>, bs: seq<KvBatch>)
    ensures SegmentsLog(segments + [bs]) == SegmentsLog(segments) + BatchesLog(bs)
  {
    hide BatchesLog;
    assert (segments + [bs])[..|segments|] == segments;
  }

  /** Decoding fails once a prefix of the files fails. */
  ghost predicate FilesFail(isDate: IsDate, crc: Segments.Crc, since: Option<int>, files: seq<Bytes>) {
    ReadFiles(crc, files).None? || Logged(isDate, since, ReadFiles(crc, files).value).None?
  }

  lemma {:induction false} FilesRaise(isDate: IsDate, crc: Segments.Crc, since: Option<int>, files: seq<Bytes>, n: nat)
    requires n <= |files| && FilesFail(isDate, crc, since, files[..n])
    ensures FilesFail(isDate, crc, since, files)
    decreases |files| - n
  {
    hide ReadFile, ReadFiles, LogEntries, BatchesLog, SegmentsLog;
    if n < |files| {
      ReadFilesSnoc(crc, files, n);
      if ReadFiles(crc, files[..n + 1]).Some? {
        var segments, bs := ReadFiles(crc, files[..n]).value, ReadFile(crc, files[n]).value;
        SegmentsLogSnoc(segments, bs);
        LogEntriesConcat(isDate, since, SegmentsLog(segments), BatchesLog(bs));
      }
      FilesRaise(isDate, crc, since, files, n + 1);
    } else {
      assert files[..n] == files;
    }
  }

  lemma EmptyLog(isDate: IsDate, since: Option<int>)
    ensures LogEntries(isDate, since, []) == Some([])
  {
  }

  lemma {:induction false} SnapshotRaises(isDate: IsDate, batchType: int, firstTs: int, rs: seq<Record>, n: nat)
    requires n <= |rs| && SnapshotEntries(isDate, batchType, firstTs, rs[..n]).None?
    ensures SnapshotEntries(isDate, batchType, firstTs, rs).None?
    decreases |rs| - n
  {
    if n < |rs| {
      assert rs[..n + 1][..n] == rs[..n];
      SnapshotRaises(isDate, batchType, firstTs, rs, n + 1);
    } else {
      assert rs[..n] == rs;
    }
  }

  lemma LogRaises(isDate: IsDate, since: Option<int>, log: seq<LogRecord>, n: nat)
    requires n <= |log| && LogEntries(isDate, since, log[..n]).None?
    ensures LogEntries(isDate, since, log).None?
  {
    assert log == log[..n] + log[n..];
    LogEntriesConcat(isDate, since, log[..n], log[n..]);
  }

  lemma {:induction false} BatchesRaise(isDate: IsDate, since: Option<int>, bs: seq<KvBatch>, n: nat)
    requires n <= |bs| && LogEntries(isDate, since, BatchesLog(bs[..n])).None?
    ensures LogEntries(isDate, since, BatchesLog(bs)).None?
    decreases |bs| - n
  {
    if n < |bs| {
      assert bs[..n + 1][..n] == bs[..n];
      LogEntriesConcat(isDate, since, BatchesLog(bs[..n]), BatchLog(bs[n]));
      BatchesRaise(isDate, since, bs, n + 1);
    } else {
      assert bs[..n] == bs;
    }
  }

  // ---------------------------------------------------------------------------------------
  // Last writer wins
  // ---------------------------------------------------------------------------------------

  /** The position of the last write to a key, or -1. */
  function LastWrite(es: seq<Entry>, key: Key): (r: int)
    ensures -1 <= r < |es|
    ensures r >= 0 ==> es[r].key == key
    ensures forall i :: r < i < |es| ==> es[i].key != key
  {
    if es == [] then -1
    else if es[|es| - 1].key == key then |es| - 1
    else LastWrite(es[..|es| - 1], key)
  }

  /** A key holds what its last write says; keys without a write keep what they held. */
  lemma {:induction false} LastWriterWins(kv: Store, es: seq<Entry>, key: Key)
    ensures var w := LastWrite(es, key);
            if w < 0 then
              (key in Replay(kv, es) <==> key in kv) && (key in kv ==> Replay(kv, es)[key] == kv[key])
            else
              match es[w].data
              case None => key !in Replay(kv, es)
              case Some(d) => key in Replay(kv, es) && Replay(kv, es)[key] == d
  {
    if es != [] { LastWriterWins(kv, es[..|es| - 1], key); }
  }

  /** Dropping a write that is followed by another write to its key changes nothing. */
  lemma CompactionKeepsStore(kv: Store, before: seq<Entry>, dropped: Entry, after: seq<Entry>)
    requires exists i :: 0 <= i < |after| && after[i].key == dropped.key
    ensures Replay(kv, before + [dropped] + after) == Replay(kv, before + after)
  {
    ReplayConcat(kv, before + [dropped], after);
    ReplayConcat(kv, before, [dropped]);
    ReplayConcat(kv, before, after);
    var s := Replay(kv, before);
    var s' := Replay(s, [dropped]);
    assert [dropped][..0] == [] && s' == ApplyEntry(s, dropped);
    forall key
      ensures key in Replay(s', after) <==> key in Replay(s, after)
      ensures key in Replay(s, after) ==> Replay(s', after)[key] == Replay(s, after)[key]
    {
      LastWriterWins(s, after, key);
      LastWriterWins(s', after, key);
    }
  }

  /** The write that a log record stands for. */
  function WriteOf(isDate: IsDate, r: LogRecord): Option<Entry> {
    DecodeEntry(isDate, r.batchType, r.firstTs, r.key, r.value, true)
  }

  predicate Skipped(since: Option<int>, r: LogRecord) {
    since.Some? && r.offset <= since.value
  }

  lemma OneRecord(isDate: IsDate, since: Option<int>, r: LogRecord)
    ensures LogEntries(isDate, since, [r]) ==
            if Skipped(since, r) then Some([]) else match WriteOf(isDate, r) case None => None case Some(e) => Some([e])
  {
    hide DecodeEntry;
    assert [r][..0] == [] && LogEntries(isDate, since, []) == Some([]);
    match WriteOf(isDate, r) {
      case None =>
      case Some(e) => assert [] + [e] == [e];
    }
  }

  /** A log around one of its records. */
  lemma AroundRecord(isDate: IsDate, since: Option<int>, a: seq<LogRecord>, r: LogRecord, b: seq<LogRecord>)
    ensures LogEntries(isDate, since, a + [r] + b) ==
            match (LogEntries(isDate, since, a), LogEntries(isDate, since, [r]), LogEntries(isDate, since, b))
            case (Some(ea), Some(er), Some(eb)) => Some(ea + er + eb)
            case _ => None
  {
    hide LogEntries;
    LogEntriesConcat(isDate, since, a + [r], b);
    LogEntriesConcat(isDate, since, a, [r]);
  }

  lemma RecordIsReplayed(isDate: IsDate, since: Option<int>, log: seq<LogRecord>, i: nat)
    requires i < |log| && !Skipped(since, log[i]) && LogEntries(isDate, since, log).Some?
    ensures WriteOf(isDate, log[i]).Some?
    ensures var es := LogEntries(isDate, since, log).value;
            exists j :: 0 <= j < |es| && es[j] == WriteOf(isDate, log[i]).value
  {
    hide LogEntries;
    var a, b := log[..i], log[i + 1..];
    assert log == a + [log[i]] + b;
    AroundRecord(isDate, since, a, log[i], b);
    OneRecord(isDate, since, log[i]);
    var n := |LogEntries(isDate, since, a).value|;
    assert LogEntries(isDate, since, log).value[n] == WriteOf(isDate, log[i]).value;
  }

  /** Compaction of a log, with or without a snapshot: dropping a record whose key a later record
      writes again changes nothing. */
  lemma CompactedLogDecodesSame(isDate: IsDate, snapshot: Option<Snapshot>, a: seq<LogRecord>, r: LogRecord,
                                b: seq<LogRecord>, i: nat)
    requires i < |b| && r.offset <= b[i].offset
    requires WriteOf(isDate, r).Some? && WriteOf(isDate, b[i]).Some?
             && WriteOf(isDate, b[i]).value.key == WriteOf(isDate, r).value.key
    ensures Decoded(isDate, snapshot, a + [r] + b) == Decoded(isDate, snapshot, a + b)
  {
    hide LogEntries, WriteOf, SnapshotEntries, Replay;
    var since := if snapshot.Some? then Some(snapshot.value.lastOffset) else None;
    AroundRecord(isDate, since, a, r, b);
    OneRecord(isDate, since, r);
    LogEntriesConcat(isDate, since, a, b);
    if LogEntries(isDate, since, a).Some? && LogEntries(isDate, since, b).Some? {
      var ea, eb := LogEntries(isDate, since, a).value, LogEntries(isDate, since, b).value;
      if Skipped(since, r) {
        assert ea + [] == ea;
      } else {
        RecordIsReplayed(isDate, since, b, i);
        var start := if snapshot.Some? && SnapshotEntries(isDate, snapshot.value.batchType, snapshot.value.firstTs,
          snapshot.value.records).Some?
          then Replay(map[], SnapshotEntries(isDate, snapshot.value.batchType, snapshot.value.firstTs,
            snapshot.value.records).value) else map[];
        CompactionKeepsStore(start, ea, WriteOf(isDate, r).value, eb);
      }
    }
  }

  /** What is left of a log after compaction. */
  function Kept(log: seq<LogRecord>, keep: seq<bool>): seq<LogRecord>
    requires |keep| == |log|
  {
    if log == [] then []
    else
      var n := |log| - 1;
      Kept(log[..n], keep[..n]) + (if keep[n] then [log[n]] else [])
  }

  /** The record writes the key of `r` again, no earlier in offset. */
  predicate Supersedes(isDate: IsDate, later: LogRecord, r: LogRecord) {
    && WriteOf(isDate, r).Some? && WriteOf(isDate, later).Some?
    && WriteOf(isDate, later).value.key == WriteOf(isDate, r).value.key && r.offset <= later.offset
  }

  /** Only records that a later record of the log supersedes are dropped. */
  ghost predicate IsCompaction(isDate: IsDate, log: seq<LogRecord>, keep: seq<bool>) {
    |keep| == |log| &&
    forall i :: 0 <= i < |log| && !keep[i] ==> exists j :: i < j < |log| && Supersedes(isDate, log[j], log[i])
  }

  lemma {:induction false} CompactedPrefix(isDate: IsDate, snapshot: Option<Snapshot>, log: seq<LogRecord>,
                                           keep: seq<bool>, n: nat)
    requires IsCompaction(isDate, log, keep) && n <= |log|
    ensures Decoded(isDate, snapshot, Kept(log[..n], keep[..n]) + log[n..]) == Decoded(isDate, snapshot, log)
  {
    hide Decoded, Supersedes, Kept;
    if n == 0 {
      KeptNone(log, keep);
    } else {
      var i := n - 1;
      CompactedPrefix(isDate, snapshot, log, keep, i);
      KeptSnoc(log, keep, i);
      var a, r, b := Kept(log[..i], keep[..i]), log[i], log[n..];
      SplitFirst(a, log, i);
      if !keep[i] {
        var j :| i < j < |log| && Supersedes(isDate, log[j], log[i]);
        DropOne(isDate, snapshot, a, r, b, j - n);
      }
    }
  }

  lemma KeptNone(log: seq<LogRecord>, keep: seq<bool>)
    requires |keep| == |log|
    ensures Kept(log[..0], keep[..0]) + log[0..] == log
  {
  }

  lemma KeptSnoc(log: seq<LogRecord>, keep: seq<bool>, i: nat)
    requires |keep| == |log| && i < |log|
    ensures Kept(log[..i + 1], keep[..i + 1]) == if keep[i] then Kept(log[..i], keep[..i]) + [log[i]]
            else Kept(log[..i], keep[..i])
  {
    assert log[..i + 1][..i] == log[..i] && keep[..i + 1][..i] == keep[..i];
  }

  lemma SplitFirst(a: seq<LogRecord>, log: seq<LogRecord>, i: nat)
    requires i < |log|
    ensures a + log[i..] == a + [log[i]] + log[i + 1..]
  {
  }

  lemma DropOne(isDate: IsDate, snapshot: Option<Snapshot>, a: seq<LogRecord>, r: LogRecord, b: seq<LogRecord>, i: nat)
    requires i < |b| && Supersedes(isDate, b[i], r)
    ensures Decoded(isDate, snapshot, a + [r] + b) == Decoded(isDate, snapshot, a + b)
  {
    CompactedLogDecodesSame(isDate, snapshot, a, r, b, i);
  }

  /** Every compaction preserves the decoded store, with or without a snapshot. */
  lemma CompactionKeepsDecoding(isDate: IsDate, snapshot: Option<Snapshot>, log: seq<LogRecord>, keep: seq<bool>)
    requires IsCompaction(isDate, log, keep)
    ensures Decoded(isDate, snapshot, Kept(log, keep)) == Decoded(isDate, snapshot, log)
  {
    hide Decoded, Kept;
    CompactedPrefix(isDate, snapshot, log, keep, |log|);
    assert log[..|log|] == log && keep[..|log|] == keep;
    assert Kept(log, keep) + log[|log|..] == Kept(log, keep);
  }

  // ---------------------------------------------------------------------------------------
  // Logs after a crash
  // ---------------------------------------------------------------------------------------

  /** Decoding from the batches themselves. */
  function DecodedBatches(isDate: IsDate, snapshot: Option<Snapshot>,
                          segments: seq<seq<Segments.Batch>>): Option<Store> {
    match ReadSegments(segments)
    case None => None
    case Some(ss) => Decoded(isDate, snapshot, SegmentsLog(ss))
  }

  lemma {:induction false} FilesHoldBatches(crc: Segments.Crc, files: seq<Bytes>, segments: seq<seq<Segments.Batch>>)
    requires |files| == |segments|
    requires forall i :: 0 <= i < |files| ==> Segments.AllBatches(crc, files[i], 0) == (segments[i], Segments.Quiet)
    ensures ReadFiles(crc, files) == ReadSegments(segments)
  {
    hide ReadBatches, Segments.AllBatches;
    if files != [] {
      var n := |files| - 1;
      FilesHoldBatches(crc, files[..n], segments[..n]);
      assert Segments.AllBatches(crc, files[n], 0) == (segments[n], Segments.Quiet);
    }
  }

  /** The files of a log after a crash: each is cut at some byte, or complete and filled up with
      zeros. */
  function CrashedFile(crc: Segments.Crc, bs: seq<Segments.Batch>, length: nat): Bytes
    requires Segments.AllWellFormed(crc, bs)
  {
    var e := Segments.EncodeSegment(crc, bs);
    if length <= |e| then e[..length] else e + Segments.Zeros(length - |e|)
  }

  function Surviving(crc: Segments.Crc, bs: seq<Segments.Batch>, length: nat): seq<Segments.Batch>
    requires Segments.AllWellFormed(crc, bs)
  {
    if length <= |Segments.EncodeSegment(crc, bs)| then bs[..Segments.Complete(crc, bs, length)] else bs
  }

  lemma CrashedFileIsRead(crc: Segments.Crc, bs: seq<Segments.Batch>, length: nat)
    requires Segments.AllWellFormed(crc, bs)
    ensures Segments.AllBatches(crc, CrashedFile(crc, bs, length), 0) == (Surviving(crc, bs, length), Segments.Quiet)
  {
    hide Segments.AllBatches, Segments.EncodeSegment, Segments.Complete;
    var e := Segments.EncodeSegment(crc, bs);
    if length <= |e| {
      Segments.CutLogYieldsCompleteBatches(crc, bs, length);
    } else {
      Segments.ZeroFilledLogYieldsAllBatches(crc, bs, length - |e|);
    }
  }

  /** Whatever length a crash left each file with, decoding the files gives the store of the
      batches that survived completely. */
  lemma CrashedLogDecodes(isDate: IsDate, crc: Segments.Crc, snapshot: Option<Snapshot>,
                          segments: seq<seq<Segments.Batch>>, lengths: seq<nat>)
    requires |lengths| == |segments| && forall i :: 0 <= i < |segments| ==> Segments.AllWellFormed(crc, segments[i])
    ensures var files := seq(|segments|, i requires 0 <= i < |segments| => CrashedFile(crc, segments[i], lengths[i]));
            var surviving := seq(|segments|, i requires 0 <= i < |segments| => Surviving(crc, segments[i], lengths[i]));
            DecodedFiles(isDate, crc, snapshot, files) == DecodedBatches(isDate, snapshot, surviving)
  {
    hide CrashedFile, Surviving, Decoded, ReadFiles, ReadSegments, Segments.AllBatches;
    var files := seq(|segments|, i requires 0 <= i < |segments| => CrashedFile(crc, segments[i], lengths[i]));
    var surviving := seq(|segments|, i requires 0 <= i < |segments| => Surviving(crc, segments[i], lengths[i]));
    forall i | 0 <= i < |files|
      ensures Segments.AllBatches(crc, files[i], 0) == (surviving[i], Segments.Quiet)
    {
      CrashedFileIsRead(crc, segments[i], lengths[i]);
    }
    FilesHoldBatches(crc, files, surviving);
  }

  // ---------------------------------------------------------------------------------------
  // Snapshots
  // ---------------------------------------------------------------------------------------

  ghost predicate InOffsetOrder(log: seq<LogRecord>) {
    forall i, j :: 0 <= i < j < |log| ==> log[i].offset <= log[j].offset
  }

  function After(s: int, log: seq<LogRecord>): seq<LogRecord> {
    if log == [] then []
    else After(s, log[..|log| - 1]) + (if log[|log| - 1].offset > s then [log[|log| - 1]] else [])
  }

  function UpTo(s: int, log: seq<LogRecord>): seq<LogRecord> {
    if log == [] then []
    else UpTo(s, log[..|log| - 1]) + (if log[|log| - 1].offset > s then [] else [log[|log| - 1]])
  }

  /** Skipping records is the same as not having them. */
  lemma {:induction false} SkippedIsAbsent(isDate: IsDate, s: int, log: seq<LogRecord>)
    ensures LogEntries(isDate, Some(s), log) == LogEntries(isDate, None, After(s, log))
  {
    hide DecodeEntry;
    if log != [] {
      var rest, r := log[..|log| - 1], log[|log| - 1];
      SkippedIsAbsent(isDate, s, rest);
      if r.offset > s {
        assert (After(s, rest) + [r])[..|After(s, rest)|] == After(s, rest);
      } else {
        assert After(s, log) == After(s, rest);
      }
    }
  }

  lemma {:induction false} OrderedLogSplits(s: int, log: seq<LogRecord>)
    requires InOffsetOrder(log)
    ensures log == UpTo(s, log) + After(s, log)
    ensures log != [] && log[|log| - 1].offset <= s ==> After(s, log) == []
  {
    if log != [] {
      var rest, r := log[..|log| - 1], log[|log| - 1];
      OrderedLogSplits(s, rest);
      assert log == rest + [r];
    }
  }

  /** Decoding from a snapshot and what is left of the log gives the store of the full log,
      whatever else of the snapshotted part the log still holds. */
  lemma SnapshotPlusLogIsFullLog(isDate: IsDate, full: seq<LogRecord>, kept: seq<LogRecord>, snap: Snapshot)
    requires InOffsetOrder(full) && LogEntries(isDate, None, full).Some?
    requires After(snap.lastOffset, kept) == After(snap.lastOffset, full)
    requires SnapshotEntries(isDate, snap.batchType, snap.firstTs, snap.records).Some?
    requires Replay(map[], SnapshotEntries(isDate, snap.batchType, snap.firstTs, snap.records).value) ==
             Replay(map[], (LogParts(isDate, full, snap.lastOffset);
               LogEntries(isDate, None, UpTo(snap.lastOffset, full)).value))
    ensures Decoded(isDate, Some(snap), kept) == Decoded(isDate, None, full)
  {
    var s := snap.lastOffset;
    LogParts(isDate, full, s);
    SkippedIsAbsent(isDate, s, kept);
    ReplayConcat(map[], LogEntries(isDate, None, UpTo(s, full)).value, LogEntries(isDate, None, After(s, full)).value);
  }

  lemma LogParts(isDate: IsDate, full: seq<LogRecord>, s: int)
    requires InOffsetOrder(full) && LogEntries(isDate, None, full).Some?
    ensures LogEntries(isDate, None, UpTo(s, full)).Some? && LogEntries(isDate, None, After(s, full)).Some?
    ensures LogEntries(isDate, None, full).value == LogEntries(isDate, None, UpTo(s, full)).value +
            LogEntries(isDate, None, After(s, full)).value
  {
    OrderedLogSplits(s, full);
    LogEntriesConcat(isDate, None, UpTo(s, full), After(s, full));
  }
}
