/**
  * The summary of consumer groups that is folded out of the offsets topic.
  */
module ConsumerOffsets {
  import opened Wrappers
  import opened Sequences
  import opened Decimals
  import opened Varint
  import opened Records
  import opened OffsetRecords
  import Segments

  /** What the log yields: headers of batches that hold no group records, and decoded records. */
  datatype Item =
    | BatchHeader(batchType: int, baseOffset: int, term: int, firstTs: int)
    | GroupMetadata(group: string, metadata: Option<Metadata>)
    | OffsetCommit(group: string, topic: string, partition: int, commit: Option<CommitValue>, logOffset: int)
    | Other

  datatype Offset = Offset(committedOffset: int, logOffset: int, leaderEpoch: int, commitTimestamp: int)

  datatype Group = Group(state: Option<Metadata>, offsets: map<string, Offset>)

  type Groups = map<string, Group>

  datatype Configuration = Configuration(baseOffset: int, term: int, timestamp: int)

  datatype Placeholder = Placeholder(baseOffset: int, term: int)

  const RAFT_CONFIGURATION := 2
  const ARCHIVAL_METADATA := 19
  const COMPACTION_PLACEHOLDER := 29

  // ---------------------------------------------------------------------------------------
  // The key of a partition
  // ---------------------------------------------------------------------------------------

  function PartitionKey(topic: string, partition: int): string {
    topic + "/" + Decimal(partition)
  }

  /** The slash before the partition number is the last one. */
  lemma LastSlash(topic: string, partition: int)
    ensures var k := PartitionKey(topic, partition);
            |topic| < |k| && k[|topic|] == '/' && forall j :: |topic| < j < |k| ==> k[j] != '/'
  {
    var k, d := PartitionKey(topic, partition), Decimal(partition);
    forall j | |topic| < j < |k| ensures k[j] != '/' {
      assert k[j] == d[j - |topic| - 1];
    }
  }

  /** Whatever characters the topic name contains, the key tells topic and partition. */
  lemma PartitionKeyInjective(t1: string, p1: int, t2: string, p2: int)
    requires PartitionKey(t1, p1) == PartitionKey(t2, p2)
    ensures t1 == t2 && p1 == p2
  {
    var k := PartitionKey(t1, p1);
    LastSlash(t1, p1);
    LastSlash(t2, p2);
    assert |t1| == |t2|;
    assert t1 == k[..|t1|] && t2 == k[..|t2|];
    assert Decimal(p1) == k[|t1| + 1..] && Decimal(p2) == k[|t2| + 1..];
    DecimalInjective(p1, p2);
  }

  // ---------------------------------------------------------------------------------------
  // One item
  // ---------------------------------------------------------------------------------------

  function GroupOf(gs: Groups, g: string): Group {
    if g in gs then gs[g] else Group(None, map[])
  }

  /** A commit value that carries a leader epoch can be stored. */
  predicate Storable(item: Item) {
    item.OffsetCommit? && item.commit.Some? ==> item.commit.value.leaderEpoch.Some?
  }

  /** A commit without a leader epoch raises, and so does a timestamp that is shown and is no date. */
  predicate Raises(text: Text, item: Item) {
    || !Storable(item)
    || (item.OffsetCommit? && item.commit.Some? && !text.isDate(item.commit.value.commitTimestamp))
    || (item.BatchHeader? && item.batchType == RAFT_CONFIGURATION && !text.isDate(item.firstTs))
  }

  function StoredOffset(v: CommitValue, logOffset: int): Offset
    requires v.leaderEpoch.Some?
  {
    Offset(v.committedOffset, logOffset, v.leaderEpoch.value, v.commitTimestamp)
  }

  function Step(gs: Groups, item: Item): Groups
    requires Storable(item)
  {
    match item
    case BatchHeader(_, _, _, _) => gs
    case Other => gs
    case GroupMetadata(g, None) => gs - {g}
    case GroupMetadata(g, Some(m)) => gs[g := GroupOf(gs, g).(state := Some(m))]
    case OffsetCommit(g, topic, partition, commit, logOffset) =>
      var key := PartitionKey(topic, partition);
      var had := GroupOf(gs, g);
      match commit
      case None => gs[g := had.(offsets := had.offsets - {key})]
      case Some(v) => gs[g := had.(offsets := had.offsets[key := StoredOffset(v, logOffset)])]
  }

  ghost predicate AllStorable(items: seq<Item>) {
    forall i :: 0 <= i < |items| ==> Storable(items[i])
  }

  ghost predicate NoneRaise(text: Text, items: seq<Item>) {
    forall i :: 0 <= i < |items| ==> !Raises(text, items[i])
  }

  function Fold(items: seq<Item>): Groups
    requires AllStorable(items)
  {
    if items == [] then map[] else Step(Fold(items[..|items| - 1]), items[|items| - 1])
  }

  // ---------------------------------------------------------------------------------------
  // What the summary holds
  // ---------------------------------------------------------------------------------------

  /** The item decides what the summary says about the offset: a commit for it, or the removal
      of its group. */
  predicate Decides(item: Item, g: string, topic: string, partition: int) {
    match item
    case OffsetCommit(g', t', p', _, _) => g' == g && t' == topic && p' == partition
    case GroupMetadata(g', None) => g' == g
    case _ => false
  }

  predicate Removes(item: Item, g: string) {
    item.GroupMetadata? && item.group == g && item.metadata.None?
  }

  /** The item makes the group exist: a metadata value, or any commit, even a tombstone. */
  predicate Creates(item: Item, g: string) {
    (item.GroupMetadata? && item.group == g && item.metadata.Some?) || (item.OffsetCommit? && item.group == g)
  }

  function LastDeciding(items: seq<Item>, g: string, topic: string, partition: int): (r: int)
    ensures -1 <= r < |items|
    ensures r >= 0 ==> Decides(items[r], g, topic, partition)
    ensures forall i :: r < i < |items| ==> !Decides(items[i], g, topic, partition)
  {
    if items == [] then -1
    else if Decides(items[|items| - 1], g, topic, partition) then |items| - 1
    else LastDeciding(items[..|items| - 1], g, topic, partition)
  }

  function LastMetadata(items: seq<Item>, g: string): (r: int)
    ensures -1 <= r < |items|
    ensures r >= 0 ==> items[r].GroupMetadata? && items[r].group == g
    ensures forall i :: r < i < |items| ==> !(items[i].GroupMetadata? && items[i].group == g)
  {
    if items == [] then -1
    else if items[|items| - 1].GroupMetadata? && items[|items| - 1].group == g then |items| - 1
    else LastMetadata(items[..|items| - 1], g)
  }

  /** An offset is in the summary exactly when the last item that decides it is a commit of a
      value, and then with the fields of that commit. */
  lemma {:induction false} OffsetIsLastCommit(items: seq<Item>, g: string, topic: string, partition: int)
    requires AllStorable(items)
    ensures var w := LastDeciding(items, g, topic, partition);
            var key := PartitionKey(topic, partition);
            var had := g in Fold(items) && key in Fold(items)[g].offsets;
            (had <==> w >= 0 && items[w].OffsetCommit? && items[w].commit.Some?) &&
            (had ==>
               var stored, commit := Fold(items)[g].offsets[key], items[w].commit.value;
               && stored.committedOffset == commit.committedOffset && stored.logOffset == items[w].logOffset
               && Some(stored.leaderEpoch) == commit.leaderEpoch && stored.commitTimestamp == commit.commitTimestamp)
  {
    hide PartitionKey;
    if items != [] {
      var rest, item := items[..|items| - 1], items[|items| - 1];
      OffsetIsLastCommit(rest, g, topic, partition);
      if item.OffsetCommit? && PartitionKey(item.topic, item.partition) == PartitionKey(topic, partition) {
        PartitionKeyInjective(item.topic, item.partition, topic, partition);
      }
    }
  }

  /** A group is in the summary exactly when something created it after it was last removed. */
  lemma {:induction false} GroupExistsAfterRemoval(items: seq<Item>, g: string)
    requires AllStorable(items)
    ensures g in Fold(items) <==>
            exists i ::
              0 <= i < |items| && Creates(items[i], g) && forall j :: i < j < |items| ==> !Removes(items[j], g)
  {
    if items != [] {
      var n := |items| - 1;
      var rest, item := items[..n], items[n];
      GroupExistsAfterRemoval(rest, g);
      if Creates(item, g) {
        assert Creates(items[n], g);
      } else if Removes(item, g) {
        assert Removes(items[n], g);
      } else {
        if g in Fold(rest) {
          var i :| 0 <= i < n && Creates(rest[i], g) && forall j :: i < j < n ==> !Removes(rest[j], g);
          assert Creates(items[i], g);
          forall j | i < j < |items| ensures !Removes(items[j], g) {
            if j < n { assert items[j] == rest[j]; }
          }
        }
        if i :| 0 <= i < |items| && Creates(items[i], g) && forall j :: i < j < |items| ==> !Removes(items[j], g) {
          assert Creates(rest[i], g);
          forall j | i < j < n ensures !Removes(rest[j], g) { assert rest[j] == items[j]; }
        }
      }
    }
  }

  /** The state of a group is its last metadata value, and there is none before the first or
      after a removal. */
  lemma {:induction false} StateIsLastMetadata(items: seq<Item>, g: string)
    requires AllStorable(items)
    ensures var w := LastMetadata(items, g);
            (g in Fold(items) ==> Fold(items)[g].state == if w < 0 then None else items[w].metadata) &&
            (w >= 0 && items[w].metadata.Some? ==> g in Fold(items))
  {
    if items != [] { StateIsLastMetadata(items[..|items| - 1], g); }
  }

  // ---------------------------------------------------------------------------------------
  // The items of a log
  // ---------------------------------------------------------------------------------------

  /** User data, and the three kinds of transaction markers. */
  predicate IsGroupBatch(batchType: int) {
    batchType == RAFT_DATA || IsTransactional(batchType)
  }

  predicate IsTransactional(batchType: int) {
    batchType == 10 || batchType == 15 || batchType == 16
  }

  /** How the summary takes a record: by the type named in its key. */
  function ItemOf(d: Decoded): Item {
    if d.kind == GROUP_METADATA then GroupMetadata(d.group, if d.val.MetadataVal? then Some(d.val.metadata) else None)
    else if d.kind == OFFSET_COMMIT then
      OffsetCommit(d.group, d.topic, d.partition, if d.val.CommitVal? then Some(d.val.commit) else None, d.offset)
    else Other
  }

  /** The records of a batch as items, or nothing if one of them does not decode. */
  function RecordItems(text: Text, h: Segments.Header, rs: seq<Record>): Option<seq<Item>> {
    if rs == [] then Some([])
    else
      match (RecordItems(text, h, rs[..|rs| - 1]), DecodeRecord(text, h, rs[|rs| - 1]))
      case (Some(items), Some(d)) => Some(items + [ItemOf(d)])
      case _ => None
  }

  function BatchItems(text: Text, b: Segments.Labelled): Option<seq<Item>> {
    var h := b.batch.header;
    if !IsGroupBatch(h.type_) then Some([BatchHeader(h.type_, h.baseOffset, b.term, h.firstTs)])
    else if h.recordCount < 0 then None
    else
      match GetRecords(b.batch.records, 0, h.recordCount)
      case None => None
      case Some((rs, _)) => RecordItems(text, h, rs)
  }

  function LogItems(text: Text, log: seq<Segments.Labelled>): Option<seq<Item>> {
    if log == [] then Some([])
    else
      match (LogItems(text, log[..|log| - 1]), BatchItems(text, log[|log| - 1]))
      case (Some(items), Some(more)) => Some(items + more)
      case _ => None
  }

  /** The batch is read without an exception. */
  ghost predicate BatchGoes(text: Text, b: Segments.Labelled) {
    BatchItems(text, b).Some? && NoneRaise(text, BatchItems(text, b).value)
  }

  ghost predicate LogGoes(text: Text, log: seq<Segments.Labelled>) {
    LogItems(text, log).Some? && NoneRaise(text, LogItems(text, log).value)
  }

  /** The groups of a log, or nothing if the summary raises. */
  ghost function Summary(text: Text, log: seq<Segments.Labelled>): Option<Groups> {
    if LogGoes(text, log) then (NoneRaiseStorable(text, LogItems(text, log).value);
      Some(Fold(LogItems(text, log).value))) else None
  }

  lemma NoneRaiseStorable(text: Text, items: seq<Item>)
    requires NoneRaise(text, items)
    ensures AllStorable(items)
  {
  }

  lemma LogSnoc(text: Text, log: seq<Segments.Labelled>, i: nat)
    requires i < |log|
    ensures LogGoes(text, log[..i + 1]) <==> LogGoes(text, log[..i]) && BatchGoes(text, log[i])
    ensures LogGoes(text, log[..i + 1]) ==>
              LogItems(text, log[..i + 1]).value == LogItems(text, log[..i]).value + BatchItems(text, log[i]).value
  {
    hide BatchItems, Raises;
    assert log[..i + 1][..i] == log[..i];
    if LogItems(text, log[..i]).Some? && BatchItems(text, log[i]).Some? {
      var items, more := LogItems(text, log[..i]).value, BatchItems(text, log[i]).value;
      NoneRaiseConcat(text, items, more);
    }
  }

  lemma NoneRaiseConcat(text: Text, a: seq<Item>, b: seq<Item>)
    ensures NoneRaise(text, a + b) <==> NoneRaise(text, a) && NoneRaise(text, b)
  {
    hide Raises;
    if NoneRaise(text, a + b) {
      forall i | 0 <= i < |a| ensures !Raises(text, a[i]) { assert (a + b)[i] == a[i]; }
      forall i | 0 <= i < |b| ensures !Raises(text, b[i]) { assert (a + b)[|a| + i] == b[i]; }
    }
  }

  lemma {:induction false} LogStops(text: Text, log: seq<Segments.Labelled>, n: nat)
    requires n <= |log| && !LogGoes(text, log[..n])
    ensures !LogGoes(text, log)
    decreases |log| - n
  {
    hide LogGoes, BatchGoes, LogItems, BatchItems;
    if n < |log| {
      LogSnoc(text, log, n);
      LogStops(text, log, n + 1);
    } else {
      assert log[..n] == log;
    }
  }

  /** The log goes through if and only if each of its batches does. */
  lemma {:induction false} LogGoesExactly(text: Text, log: seq<Segments.Labelled>, n: nat)
    requires n <= |log|
    ensures LogGoes(text, log[..n]) <==> forall i :: 0 <= i < n ==> BatchGoes(text, log[i])
  {
    hide LogGoes, BatchGoes, LogItems, BatchItems;
    if n == 0 {
      EmptyLogGoes(text, log);
    } else {
      LogSnoc(text, log, n - 1);
      LogGoesExactly(text, log, n - 1);
    }
  }

  lemma EmptyLogGoes(text: Text, log: seq<Segments.Labelled>)
    ensures LogGoes(text, log[..0]) && LogItems(text, log[..0]) == Some([])
  {
  }

  lemma {:induction false} RecordsStop(text: Text, h: Segments.Header, rs: seq<Record>, n: nat)
    requires n <= |rs|
    requires RecordItems(text, h, rs[..n]).None? || !NoneRaise(text, RecordItems(text, h, rs[..n]).value)
    ensures RecordItems(text, h, rs).None? || !NoneRaise(text, RecordItems(text, h, rs).value)
    decreases |rs| - n
  {
    hide DecodeRecord, Raises, ItemOf;
    if n < |rs| {
      assert rs[..n + 1][..n] == rs[..n];
      if RecordItems(text, h, rs[..n + 1]).Some? {
        var items := RecordItems(text, h, rs[..n]).value;
        NoneRaiseConcat(text, items, [ItemOf(DecodeRecord(text, h, rs[n]).value)]);
      }
      RecordsStop(text, h, rs, n + 1);
    } else {
      assert rs[..n] == rs;
    }
  }

  // ---------------------------------------------------------------------------------------
  // Segment files
  // ---------------------------------------------------------------------------------------

  datatype SegmentFile = SegmentFile(term: int, data: seq<byte>)

  /** The batches of a file, or nothing if reading them raises. */
  function FileLog(crc: Segments.Crc, file: SegmentFile): Option<seq<Segments.Labelled>> {
    var (bs, end) := Segments.AllBatches(crc, file.data, 0);
    if end.Quiet? then Some(Segments.Label(bs, 0, file.term)) else None
  }

  function FilesLog(crc: Segments.Crc, files: seq<SegmentFile>): Option<seq<Segments.Labelled>> {
    if files == [] then Some([])
    else
      match (FilesLog(crc, files[..|files| - 1]), FileLog(crc, files[|files| - 1]))
      case (Some(log), Some(more)) => Some(log + more)
      case _ => None
  }

  /** The files are read and summarized without an exception. */
  ghost predicate FilesGo(text: Text, crc: Segments.Crc, files: seq<SegmentFile>) {
    FilesLog(crc, files).Some? && LogGoes(text, FilesLog(crc, files).value)
  }

  lemma LogSnocAt(text: Text, log: seq<Segments.Labelled>, b: Segments.Labelled)
    ensures LogGoes(text, log + [b]) <==> LogGoes(text, log) && BatchGoes(text, b)
    ensures LogGoes(text, log + [b]) ==>
              LogItems(text, log + [b]).value == LogItems(text, log).value + BatchItems(text, b).value
  {
    hide LogGoes, BatchGoes, LogItems, BatchItems;
    var whole := log + [b];
    assert whole[..|log|] == log && whole[..|log| + 1] == whole && whole[|log|] == b;
    LogSnoc(text, whole, |log|);
  }

  lemma {:induction false} LogConcat(text: Text, a: seq<Segments.Labelled>, b: seq<Segments.Labelled>)
    ensures LogGoes(text, a + b) <==> LogGoes(text, a) && LogGoes(text, b)
    ensures LogGoes(text, a + b) ==> LogItems(text, a + b).value == LogItems(text, a).value + LogItems(text, b).value
    decreases |b|
  {
    hide LogGoes, BatchGoes, LogItems, BatchItems;
    if b == [] {
      EmptyLogGoes(text, b);
      assert b[..0] == b && a + b == a;
      if LogGoes(text, a) {
        Going(text, a);
        NothingMore(LogItems(text, a).value);
      }
    } else {
      var rest, last := b[..|b| - 1], b[|b| - 1];
      LogConcat(text, a, rest);
      LogSnocAt(text, a + rest, last);
      LogSnocAt(text, rest, last);
      SplitLast(b);
      Assoc(a, rest, [last]);
      if LogGoes(text, a + b) {
        Going(text, a);
        Going(text, rest);
        BatchStorable(text, last);
        Assoc(LogItems(text, a).value, LogItems(text, rest).value, BatchItems(text, last).value);
      }
    }
  }

  lemma FilesSnoc(text: Text, crc: Segments.Crc, files: seq<SegmentFile>, i: nat)
    requires i < |files|
    ensures FilesGo(text, crc, files[..i + 1]) <==>
            && FilesGo(text, crc, files[..i]) && FileLog(crc, files[i]).Some?
              && LogGoes(text, FileLog(crc, files[i]).value)
    ensures FilesGo(text, crc, files[..i + 1]) ==>
              LogItems(text, FilesLog(crc, files[..i + 1]).value).value ==
              LogItems(text, FilesLog(crc, files[..i]).value).value + LogItems(text, FileLog(crc, files[i]).value).value
  {
    hide FileLog, LogGoes, LogItems;
    assert files[..i + 1][..i] == files[..i];
    if FilesLog(crc, files[..i]).Some? && FileLog(crc, files[i]).Some? {
      LogConcat(text, FilesLog(crc, files[..i]).value, FileLog(crc, files[i]).value);
    }
  }

  lemma {:induction false} FilesStop(text: Text, crc: Segments.Crc, files: seq<SegmentFile>, n: nat)
    requires n <= |files| && !FilesGo(text, crc, files[..n])
    ensures !FilesGo(text, crc, files)
    decreases |files| - n
  {
    hide FilesGo, FileLog, FilesLog, LogGoes, LogItems;
    if n < |files| {
      FilesSnoc(text, crc, files, n);
      FilesStop(text, crc, files, n + 1);
    } else {
      assert files[..n] == files;
    }
  }

  lemma NoFiles(text: Text, crc: Segments.Crc, files: seq<SegmentFile>)
    ensures FilesGo(text, crc, files[..0]) && FilesLog(crc, files[..0]) == Some([]) && LogItems(text, []) == Some([])
  {
  }

  // ---------------------------------------------------------------------------------------
  // Transactions
  // ---------------------------------------------------------------------------------------

  /** The log without its transaction markers. */
  function WithoutTransactions(log: seq<Segments.Labelled>): seq<Segments.Labelled> {
    if log == [] then []
    else
      var b := log[|log| - 1];
      WithoutTransactions(log[..|log| - 1]) + (if IsTransactional(b.batch.header.type_) then [] else [b])
  }

  lemma FoldSnoc(items: seq<Item>, item: Item)
    requires AllStorable(items) && Storable(item)
    ensures AllStorable(items + [item]) && Fold(items + [item]) == Step(Fold(items), item)
  {
    hide Step;
    assert (items + [item])[..|items|] == items;
  }

  lemma NothingMore(items: seq<Item>)
    ensures items + [] == items
  {
  }

  lemma StorableParts(items: seq<Item>)
    requires AllStorable(items) && items != []
    ensures AllStorable(items[..|items| - 1]) && Storable(items[|items| - 1])
  {
  }

  /** Items that say nothing about groups leave them as they are. */
  lemma {:induction false} FoldOthers(items: seq<Item>, others: seq<Item>)
    requires AllStorable(items) && forall i :: 0 <= i < |others| ==> others[i].Other?
    ensures AllStorable(items + others) && Fold(items + others) == Fold(items)
  {
    hide AllStorable, Fold;
    if others == [] {
      NothingMore(items);
    } else {
      var rest, last := others[..|others| - 1], others[|others| - 1];
      FoldOthers(items, rest);
      FoldSnoc(items + rest, last);
      SplitLast(others);
      Assoc(items, rest, [last]);
    }
  }

  /** Equal groups stay equal. */
  lemma {:induction false} FoldFromEqual(a: seq<Item>, b: seq<Item>, more: seq<Item>)
    requires AllStorable(a) && AllStorable(b) && AllStorable(more) && Fold(a) == Fold(b)
    ensures AllStorable(a + more) && AllStorable(b + more) && Fold(a + more) == Fold(b + more)
  {
    hide Step, Storable, AllStorable, Fold;
    if more == [] {
      NothingMore(a);
      NothingMore(b);
    } else {
      StorableParts(more);
      var rest, last := more[..|more| - 1], more[|more| - 1];
      FoldFromEqual(a, b, rest);
      FoldSnoc(a + rest, last);
      FoldSnoc(b + rest, last);
      SplitLast(more);
      Assoc(a, rest, [last]);
      Assoc(b, rest, [last]);
    }
  }

  /** A transactional batch yields nothing that concerns a group. */
  lemma {:induction false} TransactionItems(text: Text, h: Segments.Header, rs: seq<Record>)
    requires IsTransactional(h.type_) && RecordItems(text, h, rs).Some?
    ensures forall i :: 0 <= i < |RecordItems(text, h, rs).value| ==> RecordItems(text, h, rs).value[i].Other?
  {
    hide DecodeRecord;
    if rs != [] {
      TransactionItems(text, h, rs[..|rs| - 1]);
      TransactionsTouchNoGroup(text, h, rs[|rs| - 1]);
    }
  }

  lemma TransactionalBatch(text: Text, b: Segments.Labelled)
    requires IsTransactional(b.batch.header.type_) && BatchItems(text, b).Some?
    ensures forall i :: 0 <= i < |BatchItems(text, b).value| ==> BatchItems(text, b).value[i].Other?
    ensures BatchGoes(text, b)
  {
    hide RecordItems;
    var h := b.batch.header;
    TransactionItems(text, h, GetRecords(b.batch.records, 0, h.recordCount).value.0);
  }

  ghost predicate AllTransactionsDecode(text: Text, log: seq<Segments.Labelled>) {
    forall i :: 0 <= i < |log| && IsTransactional(log[i].batch.header.type_) ==> BatchItems(text, log[i]).Some?
  }

  /** Transaction markers never change a group.  All they can do is raise: the summary of a log is
      that of the log without them, if they all decode, and otherwise there is none. */
  lemma {:induction false} TransactionsDoNotMatter(text: Text, log: seq<Segments.Labelled>)
    ensures Summary(text, log) == if AllTransactionsDecode(text, log) then Summary(text, WithoutTransactions(log))
            else None
  {
    hide Summary, BatchItems, LogGoes, BatchGoes, IsTransactional;
    if log == [] {
    } else {
      var n := |log| - 1;
      TransactionsDoNotMatter(text, log[..n]);
      assert AllTransactionsDecode(text, log) <==>
             AllTransactionsDecode(text, log[..n]) && (IsTransactional(log[n].batch.header.type_) ==>
               BatchItems(text, log[n]).Some?) by {
        assert forall i :: 0 <= i < n ==> log[..n][i] == log[i];
      }
      LastBatch(text, log);
    }
  }

  lemma LastBatch(text: Text, log: seq<Segments.Labelled>)
    requires log != []
    requires var rest := log[..|log| - 1];
             Summary(text, rest) == if AllTransactionsDecode(text, rest) then Summary(text, WithoutTransactions(rest))
               else None
    ensures var rest, b := log[..|log| - 1], log[|log| - 1];
            Summary(text, log) ==
            if AllTransactionsDecode(text, rest) && (IsTransactional(b.batch.header.type_) ==>
              BatchItems(text, b).Some?)
            then Summary(text, WithoutTransactions(log)) else None
  {
    hide BatchItems, LogGoes, BatchGoes, IsTransactional, AllTransactionsDecode, Fold;
    var n := |log| - 1;
    var rest, b := log[..n], log[n];
    assert log[..n + 1] == log;
    LogSnoc(text, log, n);
    if IsTransactional(b.batch.header.type_) {
      if BatchItems(text, b).Some? {
        TransactionalBatch(text, b);
        if LogGoes(text, rest) {
          NoneRaiseStorableLog(text, rest);
          FoldOthers(LogItems(text, rest).value, BatchItems(text, b).value);
        }
      } else {
        NotDecoded(text, b);
      }
      assert WithoutTransactions(log) == WithoutTransactions(rest);
    } else {
      var plain := WithoutTransactions(rest);
      var whole := plain + [b];
      assert whole[..|plain|] == plain && whole[..|plain| + 1] == whole;
      LogSnoc(text, whole, |plain|);
      if LogGoes(text, rest) && LogGoes(text, plain) && BatchGoes(text, b) {
        NoneRaiseStorableLog(text, rest);
        NoneRaiseStorableLog(text, plain);
        BatchStorable(text, b);
        if AllTransactionsDecode(text, rest) {
          FoldFromEqual(LogItems(text, rest).value, LogItems(text, plain).value, BatchItems(text, b).value);
        }
      }
    }
  }

  lemma NotDecoded(text: Text, b: Segments.Labelled)
    requires BatchItems(text, b).None?
    ensures !BatchGoes(text, b)
  {
  }

  lemma BatchStorable(text: Text, b: Segments.Labelled)
    requires BatchGoes(text, b)
    ensures BatchItems(text, b).Some? && AllStorable(BatchItems(text, b).value)
  {
    hide BatchItems;
  }

  lemma NoneRaiseStorableLog(text: Text, log: seq<Segments.Labelled>)
    requires LogGoes(text, log)
    ensures LogItems(text, log).Some? && AllStorable(LogItems(text, log).value)
  {
    hide LogItems;
  }

  // ---------------------------------------------------------------------------------------
  // Building it
  // ---------------------------------------------------------------------------------------

  function Configurations(items: seq<Item>): seq<Configuration> {
    if items == [] then []
    else
      var b := items[|items| - 1];
      Configurations(items[..|items| - 1]) +
      (if b.BatchHeader? && b.batchType == RAFT_CONFIGURATION then [Configuration(b.baseOffset, b.term, b.firstTs)]
        else [])
  }

  function ArchivalBatches(items: seq<Item>): seq<int> {
    if items == [] then []
    else
      var b := items[|items| - 1];
      ArchivalBatches(items[..|items| - 1]) + (if b.BatchHeader? && b.batchType == ARCHIVAL_METADATA
        then [b.baseOffset] else [])
  }

  function Placeholders(items: seq<Item>): seq<Placeholder> {
    if items == [] then []
    else
      var b := items[|items| - 1];
      Placeholders(items[..|items| - 1]) +
      (if b.BatchHeader? && b.batchType == COMPACTION_PLACEHOLDER then [Placeholder(b.baseOffset, b.term)] else [])
  }

  /** One more item makes its step, and adds its entry to the list of its type. */
  lemma OneMoreItem(seen: seq<Item>, b: Item)
    requires AllStorable(seen)
    ensures Storable(b) ==> AllStorable(seen + [b]) && Fold(seen + [b]) == Step(Fold(seen), b)
    ensures Configurations(seen + [b]) == Configurations(seen) +
            if b.BatchHeader? && b.batchType == RAFT_CONFIGURATION
              then [Configuration(b.baseOffset, b.term, b.firstTs)] else []
    ensures ArchivalBatches(seen + [b]) == ArchivalBatches(seen) +
            if b.BatchHeader? && b.batchType == ARCHIVAL_METADATA then [b.baseOffset] else []
    ensures Placeholders(seen + [b]) == Placeholders(seen) +
            if b.BatchHeader? && b.batchType == COMPACTION_PLACEHOLDER then [Placeholder(b.baseOffset, b.term)] else []
  {
    hide Step;
    assert (seen + [b])[..|seen|] == seen;
  }

  lemma OneItem(text: Text, item: Item)
    ensures NoneRaise(text, [item]) <==> !Raises(text, item)
  {
    hide Raises;
    assert [item][0] == item;
  }

  class SummaryBuilder {
    const text: Text
    var configurations: seq<Configuration>
    var archivalBatches: seq<int>
    var compactionPlaceholders: seq<Placeholder>
    var groups: Groups
    ghost var seen: seq<Item>

    /** The lists and groups are those of the items seen so far. */
    ghost predicate Valid()
      reads this
    {
      && AllStorable(seen) && groups == Fold(seen)
      && configurations == Configurations(seen) && archivalBatches == ArchivalBatches(seen)
      && compactionPlaceholders == Placeholders(seen)
    }

    constructor (text: Text)
      ensures Valid() && this.text == text && seen == []
    {
      this.text := text;
      configurations, archivalBatches, compactionPlaceholders, groups := [], [], [], map[];
      seen := [];
    }

    method UpdateGroupState(group: string, state: Metadata)
      modifies `groups
      ensures groups == Step(old(groups), GroupMetadata(group, Some(state)))
    {
      if group in groups {
        groups := groups[group := groups[group].(state := Some(state))];
      } else {
        groups := groups[group := Group(Some(state), map[])];
      }
    }

    /** `ok` is false when the commit carries no leader epoch, or a timestamp that is no date. */
    method UpdateGroupOffsets(item: Item) returns (ok: bool)
      requires item.OffsetCommit?
      modifies `groups
      ensures ok <==> !Raises(text, item)
      ensures ok ==> groups == Step(old(groups), item)
    {
      var group := item.group;
      if group !in groups {
        groups := groups[group := Group(None, map[])];
      }
      var key := PartitionKey(item.topic, item.partition);
      var offsets := groups[group].offsets;
      match item.commit {
        case None =>
          offsets := offsets - {key};
        case Some(v) =>
          if v.leaderEpoch.None? || !text.isDate(v.commitTimestamp) {
            return false;
          }
          offsets := offsets[key := Offset(v.committedOffset, item.logOffset, v.leaderEpoch.value, v.commitTimestamp)];
      }
      groups := groups[group := groups[group].(offsets := offsets)];
      return true;
    }

    /** One item of the log. */
    method Process(b: Item) returns (ok: bool)
      requires Valid()
      modifies this
      ensures ok <==> !Raises(text, b)
      ensures ok ==> Valid() && seen == old(seen) + [b]
    {
      hide Fold, Configurations, ArchivalBatches, Placeholders, PartitionKey, GroupOf, StoredOffset;
      OneMoreItem(seen, b);
      ok := true;
      match b {
        case BatchHeader(batchType, baseOffset, term, firstTs) =>
          if batchType == RAFT_CONFIGURATION {
            if !text.isDate(firstTs) {
              return false;
            }
            configurations := configurations + [Configuration(baseOffset, term, firstTs)];
          } else if batchType == ARCHIVAL_METADATA {
            archivalBatches := archivalBatches + [baseOffset];
          } else if batchType == COMPACTION_PLACEHOLDER {
            compactionPlaceholders := compactionPlaceholders + [Placeholder(baseOffset, term)];
          }
        case GroupMetadata(group, metadata) =>
          match metadata {
            case None => groups := groups - {group};
            case Some(m) => UpdateGroupState(group, m);
          }
        case OffsetCommit(_, _, _, _, _) =>
          ok := UpdateGroupOffsets(b);
          if !ok {
            return false;
          }
        case Other =>
      }
      seen := seen + [b];
    }

    /** The items of one batch: its header, or its records. */
    method ReadBatch(b: Segments.Labelled) returns (ok: bool)
      requires Valid()
      modifies this
      ensures ok <==> BatchGoes(text, b)
      ensures ok ==> Valid() && seen == old(seen) + BatchItems(text, b).value
    {
      hide Valid, Raises, DecodeRecord, ItemOf;
      var h := b.batch.header;
      if !IsGroupBatch(h.type_) {
        OneItem(text, BatchHeader(h.type_, h.baseOffset, b.term, h.firstTs));
        ok := Process(BatchHeader(h.type_, h.baseOffset, b.term, h.firstTs));
        return;
      }
      var it := new RecordIter(h.recordCount, b.batch.records);
      var rs := it.Collect();
      if rs.None? {
        return false;
      }
      ok := ReadRecords(h, rs.value);
    }

    method ReadRecords(h: Segments.Header, rs: seq<Record>) returns (ok: bool)
      requires Valid()
      modifies this
      ensures ok <==> RecordItems(text, h, rs).Some? && NoneRaise(text, RecordItems(text, h, rs).value)
      ensures ok ==> Valid() && seen == old(seen) + RecordItems(text, h, rs).value
    {
      hide Valid, Raises, DecodeRecord, ItemOf;
      for i := 0 to |rs|
        invariant Valid()
        invariant RecordItems(text, h, rs[..i]).Some? && NoneRaise(text, RecordItems(text, h, rs[..i]).value)
        invariant seen == old(seen) + RecordItems(text, h, rs[..i]).value
      {
        assert rs[..i + 1][..i] == rs[..i];
        var d := DecodeRecord(text, h, rs[i]);
        if d.None? {
          RecordsStop(text, h, rs, i + 1);
          return false;
        }
        OneItem(text, ItemOf(d.value));
        NoneRaiseConcat(text, RecordItems(text, h, rs[..i]).value, [ItemOf(d.value)]);
        ok := Process(ItemOf(d.value));
        if !ok {
          RecordsStop(text, h, rs, i + 1);
          return false;
        }
      }
      assert rs[..|rs|] == rs;
      return true;
    }

    /** The batches of one segment. */
    method ReadLog(log: seq<Segments.Labelled>) returns (ok: bool)
      requires Valid()
      modifies this
      ensures ok <==> LogGoes(text, log)
      ensures ok ==> Valid() && seen == old(seen) + LogItems(text, log).value
    {
      hide Valid, BatchItems, Raises, LogItems, LogGoes, BatchGoes;
      EmptyLogGoes(text, log);
      NothingMore(seen);
      for i := 0 to |log|
        invariant Valid() && LogGoes(text, log[..i])
        invariant LogItems(text, log[..i]).Some? && seen == old(seen) + LogItems(text, log[..i]).value
      {
        ok := ReadBatch(log[i]);
        LogSnoc(text, log, i);
        if !ok {
          LogStops(text, log, i + 1);
          return false;
        }
        Going(text, log[..i + 1]);
        BatchStorable(text, log[i]);
        Assoc(old(seen), LogItems(text, log[..i]).value, BatchItems(text, log[i]).value);
      }
      assert log[..|log|] == log;
      return true;
    }

    /** The loop over the log; `ok` is false exactly when a segment is corrupt, some record does not
        decode or some item raises. */
    method BuildSummary(crc: Segments.Crc, files: seq<SegmentFile>) returns (ok: bool)
      requires Valid() && seen == []
      modifies this
      ensures ok <==> FilesGo(text, crc, files)
      ensures ok ==> Valid() && seen == LogItems(text, FilesLog(crc, files).value).value
    {
      hide Valid, LogItems, LogGoes, FilesLog, FilesGo, Segments.AllBatches;
      NoFiles(text, crc, files);
      for i := 0 to |files|
        invariant Valid() && FilesGo(text, crc, files[..i])
        invariant FilesLog(crc, files[..i]).Some? && LogItems(text, FilesLog(crc, files[..i]).value).Some?
        invariant seen == LogItems(text, FilesLog(crc, files[..i]).value).value
      {
        FilesSnoc(text, crc, files, i);
        var it := new Segments.BatchIterator(crc, files[i].data, files[i].term);
        var log, end := it.Collect();
        if !end.Quiet? {
          FilesStop(text, crc, files, i + 1);
          return false;
        }
        ok := ReadLog(log);
        if !ok {
          FilesStop(text, crc, files, i + 1);
          return false;
        }
        FilesGoing(text, crc, files[..i + 1]);
      }
      assert files[..|files|] == files;
      return true;
    }
  }

  lemma Going(text: Text, log: seq<Segments.Labelled>)
    requires LogGoes(text, log)
    ensures LogItems(text, log).Some?
  {
  }

  lemma FilesGoing(text: Text, crc: Segments.Crc, files: seq<SegmentFile>)
    requires FilesGo(text, crc, files)
    ensures FilesLog(crc, files).Some? && LogItems(text, FilesLog(crc, files).value).Some?
  {
  }
}
