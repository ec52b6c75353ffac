/**
  * From written records to the summary: which item each record becomes, when it raises, and what
  * the lists of the summary hold.
  */
module ConsumerLaws {
  import opened Wrappers
  import opened Sequences
  import opened Varint
  import opened Records
  import opened RecordRoundTrip
  import opened OffsetRecords
  import opened OffsetWriting
  import opened ConsumerOffsets
  import Segments

  /** The item that the summary gets for a record, if the record decodes. */
  function ItemFor(text: Text, header: Segments.Header, r: Record): Option<Item> {
    match DecodeRecord(text, header, r) case None => None case Some(d) => Some(ItemOf(d))
  }

  // ---------------------------------------------------------------------------------------
  // Written records
  // ---------------------------------------------------------------------------------------

  /** Written group metadata sets the state of its group, and never raises. */
  lemma MetadataItem(text: Text, enc: Enc, header: Segments.Header, r: Record, group: string, st: State)
    requires Encodes(text, enc) && header.type_ == RAFT_DATA && text.isDate(header.firstTs)
    requires GroupKeyFits(enc, 2, group) && r.key == Some(WriteGroupKey(enc, 2, group))
    requires StateFits(enc, st) && r.value == Some(WriteState(enc, st))
    ensures ItemFor(text, header, r) == Some(GroupMetadata(group, Some(MetadataOf(st))))
    ensures !Raises(text, GroupMetadata(group, Some(MetadataOf(st))))
  {
    hide DecodeRecord, WriteGroupKey, WriteState, MetadataOf, StateFits, GroupKeyFits, Encodes;
    MetadataIsDecoded(text, enc, header, r, group, st);
  }

  /** A group key without a value removes its group. */
  lemma GroupTombstoneItem(text: Text, enc: Enc, header: Segments.Header, r: Record, group: string)
    requires Encodes(text, enc) && header.type_ == RAFT_DATA && text.isDate(header.firstTs)
    requires GroupKeyFits(enc, 2, group) && r.key == Some(WriteGroupKey(enc, 2, group)) && NoValue(r)
    ensures ItemFor(text, header, r) == Some(GroupMetadata(group, None)) && !Raises(text, GroupMetadata(group, None))
  {
    hide DecodeRecord, WriteGroupKey, GroupKeyFits, Encodes;
    GroupTombstoneIsDecoded(text, enc, header, r, group);
  }

  /** A written commit sets its offset, and raises if and only if it is below version 3 or its
      timestamp is no date. */
  lemma CommitItem(text: Text, enc: Enc, header: Segments.Header, r: Record, version: int, group: string, topic: string,
                   partition: int, c: Commit)
    requires Encodes(text, enc) && header.type_ == RAFT_DATA && text.isDate(header.firstTs)
    requires CommitKeyFits(enc, version, group, topic, partition)
    requires r.key == Some(WriteCommitKey(enc, version, group, topic, partition))
    requires CommitFits(enc, c) && r.value == Some(WriteCommit(enc, c))
    ensures var commit := CommitValue(c.offset, if c.version >= 3 then Some(c.epoch) else None, c.timestamp);
            var item := OffsetCommit(group, topic, partition, Some(commit), header.baseOffset + r.offsetDelta);
            && ItemFor(text, header, r) == Some(item)
            && (Raises(text, item) <==> c.version < 3 || !text.isDate(c.timestamp))
  {
    hide DecodeRecord, WriteCommitKey, WriteCommit, CommitFits, CommitKeyFits, Encodes;
    KindsDiffer();
    CommitIsDecoded(text, enc, header, r, version, group, topic, partition, c);
  }

  /** A commit key without a value removes its offset. */
  lemma CommitTombstoneItem(text: Text, enc: Enc, header: Segments.Header, r: Record, version: int, group: string,
                            topic: string, partition: int)
    requires Encodes(text, enc) && header.type_ == RAFT_DATA && text.isDate(header.firstTs)
    requires CommitKeyFits(enc, version, group, topic, partition) && NoValue(r)
    requires r.key == Some(WriteCommitKey(enc, version, group, topic, partition))
    ensures var item := OffsetCommit(group, topic, partition, None, header.baseOffset + r.offsetDelta);
            ItemFor(text, header, r) == Some(item) && !Raises(text, item)
  {
    hide DecodeRecord, WriteCommitKey, CommitKeyFits, Encodes;
    KindsDiffer();
    CommitTombstoneIsDecoded(text, enc, header, r, version, group, topic, partition);
  }

  /** A written transaction marker concerns no group, and never raises. */
  lemma MarkerItem(text: Text, enc: Enc, header: Segments.Header, r: Record, m: Marker)
    requires Encodes(text, enc) && header.type_ != RAFT_DATA && text.isDate(header.firstTs) && MarkerFits(enc, m)
    requires r.key == Some(WriteMarkerKey(enc, m)) && r.value == Some(WriteMarker(enc, m))
    ensures ItemFor(text, header, r) == Some(Other) && !Raises(text, Other)
  {
    hide DecodeRecord, WriteMarkerKey, WriteMarker, MarkerFits, Encodes;
    MarkerIsDecoded(text, enc, header, r, m);
    TransactionsTouchNoGroup(text, header, r);
  }

  // ---------------------------------------------------------------------------------------
  // Written batches
  // ---------------------------------------------------------------------------------------

  predicate HoldsGroupRecords(batchType: int) {
    batchType in {1, 10, 15, 16}
  }

  /** A batch of another type is seen by its header alone; it raises if and only if it is a
      configuration without a date. */
  lemma HeaderBatch(text: Text, b: Segments.Labelled)
    requires !HoldsGroupRecords(b.batch.header.type_)
    ensures var h := b.batch.header;
            && BatchItems(text, b) == Some([BatchHeader(h.type_, h.baseOffset, b.term, h.firstTs)])
            && (BatchGoes(text, b) <==> h.type_ != 2 || text.isDate(h.firstTs))
  {
    var h := b.batch.header;
    OneItem(text, BatchHeader(h.type_, h.baseOffset, b.term, h.firstTs));
  }

  /** A batch of written records is seen as their items, in order, if all of them decode. */
  lemma WrittenBatch(text: Text, b: Segments.Labelled, rs: seq<Record>, items: seq<Item>)
    requires HoldsGroupRecords(b.batch.header.type_) && AttrsFit(rs) && |items| == |rs|
    requires b.batch.records == EncodeRecords(rs) && b.batch.header.recordCount == |rs|
    requires forall i :: 0 <= i < |rs| ==> ItemFor(text, b.batch.header, Seen(rs[i])) == Some(items[i])
    ensures BatchItems(text, b) == Some(items)
  {
    RecordsRoundTrip(rs);
    hide EncodeRecords, GetRecords;
    ItemsOfRecords(text, b.batch.header, AllSeen(rs), items);
  }

  lemma {:induction false} ItemsOfRecords(text: Text, h: Segments.Header, rs: seq<Record>, items: seq<Item>)
    requires |items| == |rs| && forall i :: 0 <= i < |rs| ==> ItemFor(text, h, rs[i]) == Some(items[i])
    ensures RecordItems(text, h, rs) == Some(items)
  {
    hide DecodeRecord, ItemOf;
    if rs != [] {
      var n := |rs| - 1;
      ItemsOfRecords(text, h, rs[..n], items[..n]);
      SplitLast(items);
      assert ItemFor(text, h, rs[n]) == Some(items[n]);
    }
  }

  /** The batches of written segments, each labelled with its place and the term of its segment. */
  function Labels(segments: seq<seq<Segments.Batch>>, terms: seq<int>): seq<Segments.Labelled>
    requires |terms| == |segments|
  {
    if segments == [] then []
    else
      var n := |segments| - 1;
      Labels(segments[..n], terms[..n]) + Segments.Label(segments[n], 0, terms[n])
  }

  /** Written segment files are read as their batches, in order. */
  lemma {:induction false} WrittenFilesAreRead(crc: Segments.Crc, segments: seq<seq<Segments.Batch>>, terms: seq<int>,
                                               files: seq<SegmentFile>)
    requires |files| == |segments| == |terms|
    requires forall i :: 0 <= i < |segments| ==> Segments.AllWellFormed(crc, segments[i])
    requires forall i :: 0 <= i < |files| ==>
               files[i] == SegmentFile(terms[i], Segments.EncodeSegment(crc, segments[i]))
    ensures FilesLog(crc, files) == Some(Labels(segments, terms))
  {
    hide Segments.AllBatches, Segments.EncodeSegment, Segments.AllWellFormed;
    if files != [] {
      var n := |files| - 1;
      WrittenFilesAreRead(crc, segments[..n], terms[..n], files[..n]);
      var e := Segments.EncodeSegment(crc, segments[n]);
      Segments.ZeroFilledLogYieldsAllBatches(crc, segments[n], 0);
      assert e + Segments.Zeros(0) == e;
    }
  }

  // ---------------------------------------------------------------------------------------
  // The lists of the summary
  // ---------------------------------------------------------------------------------------

  predicate IsHeaderOf(item: Item, batchType: int) {
    item.BatchHeader? && item.batchType == batchType
  }

  /** Where the headers of a batch type stand. */
  function Places(items: seq<Item>, batchType: int): seq<nat> {
    if items == [] then []
    else
      var n := |items| - 1;
      Places(items[..n], batchType) + (if IsHeaderOf(items[n], batchType) then [n] else [])
  }

  lemma {:induction false} PlacesAre(items: seq<Item>, batchType: int)
    ensures var ps := Places(items, batchType);
            && (forall k :: 0 <= k < |ps| ==> ps[k] < |items| && IsHeaderOf(items[ps[k]], batchType))
            && (forall j, k :: 0 <= j < k < |ps| ==> ps[j] < ps[k])
            && (forall i :: 0 <= i < |items| && IsHeaderOf(items[i], batchType) ==> i in ps)
  {
    if items != [] {
      var n := |items| - 1;
      PlacesAre(items[..n], batchType);
      var before := Places(items[..n], batchType);
      forall i | 0 <= i < |items| && IsHeaderOf(items[i], batchType)
        ensures i in Places(items, batchType)
      {
        if i < n { assert items[..n][i] == items[i]; }
      }
    }
  }

  /** Configurations are listed once each, in the order of the log, with the fields of their headers. */
  lemma {:induction false} ConfigurationsAre(items: seq<Item>)
    ensures var ps := Places(items, 2);
            && |Configurations(items)| == |ps|
            && forall k :: 0 <= k < |ps| ==>
                 && ps[k] < |items| && items[ps[k]].BatchHeader?
                 && var b := items[ps[k]]; Configurations(items)[k] == Configuration(b.baseOffset, b.term, b.firstTs)
  {
    PlacesAre(items, 2);
    if items != [] {
      ConfigurationsAre(items[..|items| - 1]);
      PlacesAre(items[..|items| - 1], 2);
    }
  }

  /** And so are the offsets of archival batches, */
  lemma {:induction false} ArchivalBatchesAre(items: seq<Item>)
    ensures var ps := Places(items, 19);
            && |ArchivalBatches(items)| == |ps|
            && forall k :: 0 <= k < |ps| ==>
                 ps[k] < |items| && items[ps[k]].BatchHeader? && ArchivalBatches(items)[k] == items[ps[k]].baseOffset
  {
    PlacesAre(items, 19);
    if items != [] {
      ArchivalBatchesAre(items[..|items| - 1]);
      PlacesAre(items[..|items| - 1], 19);
    }
  }

  /** and the placeholders that compaction left. */
  lemma {:induction false} PlaceholdersAre(items: seq<Item>)
    ensures var ps := Places(items, 29);
            && |Placeholders(items)| == |ps|
            && forall k :: 0 <= k < |ps| ==>
                 && ps[k] < |items| && items[ps[k]].BatchHeader?
                 && var b := items[ps[k]]; Placeholders(items)[k] == Placeholder(b.baseOffset, b.term)
  {
    PlacesAre(items, 29);
    if items != [] {
      PlaceholdersAre(items[..|items| - 1]);
      PlacesAre(items[..|items| - 1], 29);
    }
  }
}
