/**
  * The records of the offsets topic, from their bytes: group metadata and offset commits in
  * batches of user data, and the markers of transactions in batches of their own types.
  */
module OffsetRecords {
  import opened Wrappers
  import opened Sequences
  import opened Varint
  import opened Records
  import opened RecordRoundTrip
  import Segments

  /** What is not modelled: decoding UTF-8, and whether a timestamp is within the range of dates. */
  datatype Text = Text(utf8: seq<byte> -> Option<string>, isDate: int -> bool)

  // ---------------------------------------------------------------------------------------
  // Kafka's fields
  // ---------------------------------------------------------------------------------------

  datatype Format = IntF(width: nat) | StringF | OptionalStringF | BytesF

  datatype FieldVal = IntV(i: int) | StringV(s: string) | MissingV | BytesV(bs: seq<byte>)

  /** A signed integer, highest byte first. */
  function Big(data: seq<byte>, pos: nat, width: nat): int
    requires pos + width <= |data|
  {
    UnpackInt(Segments.Backwards(data[pos..pos + width]), true)
  }

  function GetBig(data: seq<byte>, pos: nat, width: nat): (r: Option<(int, nat)>)
    ensures r.Some? ==> r.value.1 == pos + width <= |data|
  {
    if pos + width <= |data| then Some((Big(data, pos, width), pos + width)) else None
  }

  /** Up to `n` bytes of text; fewer at the end of the data. */
  function GetText(text: Text, data: seq<byte>, pos: nat, n: int): (r: Option<(string, nat)>)
    requires pos <= |data|
    ensures r.Some? ==> pos <= r.value.1 <= |data|
  {
    match GetBytes(data, pos, n)
    case None => None
    case Some((bs, next)) => match text.utf8(bs) case None => None case Some(s) => Some((s, next))
  }

  function GetKafka(text: Text, f: Format, data: seq<byte>, pos: nat): (r: Option<(FieldVal, nat)>)
    requires pos <= |data|
    ensures r.Some? ==> pos <= r.value.1 <= |data|
  {
    match f
    case IntF(width) => (match GetBig(data, pos, width) case None => None case Some((i, p)) => Some((IntV(i), p)))
    case StringF =>
      (match GetBig(data, pos, 2)
       case None => None
       case Some((n, p)) =>
         match GetText(text, data, p, n) case None => None case Some((s, q)) => Some((StringV(s), q)))
    case OptionalStringF =>
      (match GetBig(data, pos, 2)
       case None => None
       case Some((n, p)) =>
         if n == -1 then Some((MissingV, p))
         else match GetText(text, data, p, n) case None => None case Some((s, q)) => Some((StringV(s), q)))
    case BytesF =>
      (match GetBig(data, pos, 4)
       case None => None
       case Some((n, p)) => match GetBytes(data, p, n) case None => None case Some((bs, q)) => Some((BytesV(bs), q)))
  }

  function GetAll(text: Text, fs: seq<Format>, data: seq<byte>, pos: nat): (r: Option<(seq<FieldVal>, nat)>)
    requires pos <= |data|
    ensures r.Some? ==> pos <= r.value.1 <= |data| && |r.value.0| == |fs|
  {
    if fs == [] then Some(([], pos))
    else
      match GetAll(text, fs[..|fs| - 1], data, pos)
      case None => None
      case Some((vs, p)) =>
        match GetKafka(text, fs[|fs| - 1], data, p)
        case None => None
        case Some((v, q)) => Some((vs + [v], q))
  }

  function IntOf(v: FieldVal): int {
    if v.IntV? then v.i else 0
  }

  function StringOf(v: FieldVal): string {
    if v.StringV? then v.s else ""
  }

  // ---------------------------------------------------------------------------------------
  // User data: commits and group metadata
  // ---------------------------------------------------------------------------------------

  const OFFSET_COMMIT := "offset_commit"
  const GROUP_METADATA := "group_metadata"
  const UNKNOWN := "unknown"

  function KeyKind(version: int): string {
    if version == 0 || version == 1 then OFFSET_COMMIT else if version == 2 then GROUP_METADATA else UNKNOWN
  }

  datatype Key = Key(kind: string, group: string, topic: string, partition: int)

  function KeyFormat(kind: string): seq<Format> {
    [IntF(2), StringF] + (if kind == OFFSET_COMMIT then [StringF, IntF(4)] else [])
  }

  function GetKey(text: Text, key: seq<byte>): Option<Key> {
    match GetBig(key, 0, 2)
    case None => None
    case Some((version, _)) =>
      var kind := KeyKind(version);
      match GetAll(text, KeyFormat(kind), key, 0)
      case None => None
      case Some((vs, _)) =>
        if kind == OFFSET_COMMIT then Some(Key(kind, StringOf(vs[1]), StringOf(vs[2]), IntOf(vs[3])))
        else Some(Key(kind, StringOf(vs[1]), "", 0))
  }

  /** The value of a group metadata record, as it was read. */
  datatype Metadata = Metadata(fields: seq<FieldVal>, members: seq<seq<FieldVal>>)

  const METADATA_FORMAT := [IntF(2), StringF, IntF(4), OptionalStringF, OptionalStringF, IntF(8), IntF(4)]

  const MEMBER_FORMAT :=
    [IntF(2), StringF, OptionalStringF, StringF, StringF, IntF(4), IntF(4), BytesF, BytesF]

  function GetMembers(text: Text, data: seq<byte>, pos: nat, n: int): (r: Option<(seq<seq<FieldVal>>, nat)>)
    requires pos <= |data|
    ensures r.Some? ==> pos <= r.value.1 <= |data|
    decreases if n > 0 then n else 0
  {
    if n <= 0 then Some(([], pos))
    else
      match GetMembers(text, data, pos, n - 1)
      case None => None
      case Some((ms, p)) =>
        match GetAll(text, MEMBER_FORMAT, data, p)
        case None => None
        case Some((m, q)) => Some((ms + [m], q))
  }

  /** The last field of the fixed part is the number of members. */
  function GetMetadata(text: Text, data: seq<byte>): Option<Metadata> {
    match GetAll(text, METADATA_FORMAT, data, 0)
    case None => None
    case Some((vs, p)) =>
      match GetMembers(text, data, p, IntOf(vs[6]))
      case None => None
      case Some((ms, _)) => Some(Metadata(vs, ms))
  }

  /** The value of an offset commit.  Only newer versions carry a leader epoch. */
  datatype CommitValue = CommitValue(committedOffset: int, leaderEpoch: Option<int>, commitTimestamp: int)

  function CommitFormat(version: int): (r: seq<Format>)
    ensures |r| >= 4 && (version >= 3 ==> |r| == 5)
  {
    [IntF(2), IntF(8)] + (if version >= 3 then [IntF(4)] else []) + [StringF, IntF(8)] +
      (if version == 1 then [IntF(8)] else [])
  }

  function GetCommit(text: Text, data: seq<byte>): Option<CommitValue> {
    match GetBig(data, 0, 2)
    case None => None
    case Some((version, _)) =>
      match GetAll(text, CommitFormat(version), data, 0)
      case None => None
      case Some((vs, _)) =>
        Some(if version >= 3 then CommitValue(IntOf(vs[1]), Some(IntOf(vs[2])), IntOf(vs[4]))
             else CommitValue(IntOf(vs[1]), None, IntOf(vs[3])))
  }

  // ---------------------------------------------------------------------------------------
  // Transactions
  // ---------------------------------------------------------------------------------------

  const TX_FENCE := "tx_fence"
  const TX_COMMIT := "tx_commit"
  const TX_ABORT := "tx_abort"

  function TxKind(v: int): string {
    if v == 10 then TX_FENCE else if v == 15 then TX_COMMIT else if v == 16 then TX_ABORT else UNKNOWN
  }

  /** Little-endian integers one after the other. */
  function GetInts(widths: seq<nat>, data: seq<byte>, pos: nat): (r: Option<(seq<int>, nat)>)
    requires pos <= |data|
    ensures r.Some? ==> pos <= r.value.1 <= |data|
  {
    if widths == [] then Some(([], pos))
    else
      match GetInts(widths[..|widths| - 1], data, pos)
      case None => None
      case Some((ns, p)) =>
        match GetInt(data, p, widths[|widths| - 1], true)
        case None => None
        case Some((i, q)) => Some((ns + [i], q))
  }

  /** What stands behind the group name. */
  function TxWidths(kind: string): seq<nat> {
    if kind == TX_FENCE then [8, 8, 4] else if kind == TX_COMMIT then [] else [8]
  }

  datatype TxValue = TxValue(group: string, numbers: seq<int>)

  /** A skipped byte, the group name with a four-byte length, and numbers. */
  function GetTxValue(text: Text, kind: string, data: seq<byte>): Option<TxValue> {
    var start := if |data| == 0 then 0 else 1;
    match GetInt(data, start, 4, true)
    case None => None
    case Some((n, p)) =>
      match GetText(text, data, p, n)
      case None => None
      case Some((group, q)) =>
        match GetInts(TxWidths(kind), data, q) case None => None case Some((ns, _)) => Some(TxValue(group, ns))
  }

  /** A type byte and an identifier. */
  function GetTxKey(key: seq<byte>): Option<(string, int)> {
    match GetInts([1, 8], key, 0)
    case None => None
    case Some((ns, _)) => if |ns| == 2 then Some((TxKind(ns[0]), ns[1])) else None
  }

  // ---------------------------------------------------------------------------------------
  // Records
  // ---------------------------------------------------------------------------------------

  datatype RecordVal = Tombstone | MetadataVal(metadata: Metadata) | CommitVal(commit: CommitValue) | TxVal(tx: TxValue)

  /** A decoded record: the type named in its key, the rest of the key, the value and the offset. */
  datatype Decoded = Decoded(kind: string, group: string, topic: string, partition: int, val: RecordVal, offset: int)

  const RAFT_DATA := 1

  /** An empty value of a transaction raises, because the producer is added to it. */
  function DecodeTx(text: Text, r: Record, offset: int): Option<Decoded> {
    match GetTxKey(OrEmpty(r.key))
    case None => None
    case Some((kind, _)) =>
      if OrEmpty(r.value) == [] then None
      else
        match GetTxValue(text, kind, OrEmpty(r.value))
        case None => None
        case Some(v) => Some(Decoded(kind, "", "", 0, TxVal(v), offset))
  }

  /** A key of an unknown version raises, because no value is assigned. */
  function DecodePlain(text: Text, r: Record, offset: int): Option<Decoded> {
    match GetKey(text, OrEmpty(r.key))
    case None => None
    case Some(k) =>
      var v := OrEmpty(r.value);
      if k.kind == GROUP_METADATA then
        if v == [] then Some(Decoded(k.kind, k.group, k.topic, k.partition, Tombstone, offset))
        else
          match GetMetadata(text, v)
          case None => None
          case Some(m) => Some(Decoded(k.kind, k.group, k.topic, k.partition, MetadataVal(m), offset))
      else if k.kind == OFFSET_COMMIT then
        if v == [] then Some(Decoded(k.kind, k.group, k.topic, k.partition, Tombstone, offset))
        else
          match GetCommit(text, v)
          case None => None
          case Some(c) => Some(Decoded(k.kind, k.group, k.topic, k.partition, CommitVal(c), offset))
      else None
  }

  function DecodeRecord(text: Text, header: Segments.Header, r: Record): Option<Decoded> {
    var offset := header.baseOffset + r.offsetDelta;
    if !text.isDate(header.firstTs) then None
    else if header.type_ != RAFT_DATA then DecodeTx(text, r, offset)
    else DecodePlain(text, r, offset)
  }

  // ---------------------------------------------------------------------------------------
  // What decoding promises
  // ---------------------------------------------------------------------------------------

  /** A batch of transaction markers never yields a record that a group depends on. */
  lemma TransactionsTouchNoGroup(text: Text, header: Segments.Header, r: Record)
    requires header.type_ != RAFT_DATA && DecodeRecord(text, header, r).Some?
    ensures var kind := DecodeRecord(text, header, r).value.kind;
            kind != GROUP_METADATA && kind != OFFSET_COMMIT
  {
    assert TX_FENCE[0] == TX_COMMIT[0] == TX_ABORT[0] == 't' && UNKNOWN[0] == 'u';
    assert GROUP_METADATA[0] == 'g' && OFFSET_COMMIT[0] == 'o';
  }

  // ---------------------------------------------------------------------------------------
  // Which bytes decode
  // ---------------------------------------------------------------------------------------

  /** Where a read of `n` bytes ends: short at the end of the data, and there for -1. */
  function ChunkEnd(data: seq<byte>, pos: nat, n: int): (r: nat)
    requires pos <= |data| && n >= -1
    ensures pos <= r <= |data|
  {
    if n == -1 || pos + n > |data| then |data| else pos + n
  }

  /** The field's number or length is there, its length is not below -1, and its text is UTF-8. */
  predicate Readable(text: Text, f: Format, data: seq<byte>, pos: nat) {
    match f
    case IntF(width) => pos + width <= |data|
    case StringF =>
      && pos + 2 <= |data| && Big(data, pos, 2) >= -1
      && text.utf8(data[pos + 2..ChunkEnd(data, pos + 2, Big(data, pos, 2))]).Some?
    case OptionalStringF =>
      && pos + 2 <= |data| && Big(data, pos, 2) >= -1
      && (Big(data, pos, 2) >= 0 ==> text.utf8(data[pos + 2..ChunkEnd(data, pos + 2, Big(data, pos, 2))]).Some?)
    case BytesF => pos + 4 <= |data| && Big(data, pos, 4) >= -1
  }

  function FieldEnd(text: Text, f: Format, data: seq<byte>, pos: nat): (r: nat)
    requires Readable(text, f, data, pos)
    ensures pos <= r <= |data|
  {
    match f
    case IntF(width) => pos + width
    case StringF => ChunkEnd(data, pos + 2, Big(data, pos, 2))
    case OptionalStringF => if Big(data, pos, 2) == -1 then pos + 2 else ChunkEnd(data, pos + 2, Big(data, pos, 2))
    case BytesF => ChunkEnd(data, pos + 4, Big(data, pos, 4))
  }

  /** The fields are readable one behind the other. */
  predicate AllReadable(text: Text, fs: seq<Format>, data: seq<byte>, pos: nat)
    decreases |fs|
  {
    fs == [] ||
    (Readable(text, fs[0], data, pos) && AllReadable(text, fs[1..], data, FieldEnd(text, fs[0], data, pos)))
  }

  function AllEnd(text: Text, fs: seq<Format>, data: seq<byte>, pos: nat): (r: nat)
    requires pos <= |data| && AllReadable(text, fs, data, pos)
    ensures pos <= r <= |data|
    decreases |fs|
  {
    if fs == [] then pos else AllEnd(text, fs[1..], data, FieldEnd(text, fs[0], data, pos))
  }

  lemma ReadableExactly(text: Text, f: Format, data: seq<byte>, pos: nat)
    requires pos <= |data|
    ensures GetKafka(text, f, data, pos).Some? <==> Readable(text, f, data, pos)
    ensures Readable(text, f, data, pos) ==> GetKafka(text, f, data, pos).value.1 == FieldEnd(text, f, data, pos)
  {
    hide Big;
  }

  /** Reading from the front is reading from the back. */
  lemma {:induction false} GetAllFront(text: Text, fs: seq<Format>, data: seq<byte>, pos: nat)
    requires pos <= |data| && fs != []
    ensures GetAll(text, fs, data, pos) ==
            match GetKafka(text, fs[0], data, pos)
            case None => None
            case Some((v, p)) =>
              match GetAll(text, fs[1..], data, p)
              case None => None
              case Some((vs, q)) => Some(([v] + vs, q))
    decreases |fs|
  {
    hide GetKafka;
    var n := |fs| - 1;
    if n == 0 {
      assert fs[..0] == [] && fs[1..] == [];
      match GetKafka(text, fs[0], data, pos) {
        case None =>
        case Some((v, p)) => assert [] + [v] == [v] + [];
      }
    } else {
      GetAllFront(text, fs[..n], data, pos);
      assert fs[..n][1..] == fs[1..][..n - 1];
      match GetKafka(text, fs[0], data, pos) {
        case None =>
        case Some((v, p)) =>
          match GetAll(text, fs[1..][..n - 1], data, p) {
            case None =>
            case Some((vs, q)) =>
              match GetKafka(text, fs[n], data, q) {
                case None =>
                case Some((w, end)) => Assoc([v], vs, [w]);
              }
          }
      }
    }
  }

  lemma {:induction false} AllReadableExactly(text: Text, fs: seq<Format>, data: seq<byte>, pos: nat)
    requires pos <= |data|
    ensures GetAll(text, fs, data, pos).Some? <==> AllReadable(text, fs, data, pos)
    ensures AllReadable(text, fs, data, pos) ==> GetAll(text, fs, data, pos).value.1 == AllEnd(text, fs, data, pos)
    decreases |fs|
  {
    hide GetKafka, Readable, FieldEnd, GetAll;
    if fs == [] {
      NoFieldsRead(text, data, pos);
    } else {
      GetAllFront(text, fs, data, pos);
      ReadableExactly(text, fs[0], data, pos);
      if Readable(text, fs[0], data, pos) {
        AllReadableExactly(text, fs[1..], data, FieldEnd(text, fs[0], data, pos));
      }
    }
  }

  lemma NoFieldsRead(text: Text, data: seq<byte>, pos: nat)
    requires pos <= |data|
    ensures GetAll(text, [], data, pos) == Some(([], pos))
  {
  }

  predicate MembersReadable(text: Text, data: seq<byte>, pos: nat, n: int)
    requires pos <= |data|
    decreases if n > 0 then n else 0
  {
    n <= 0 ||
    (AllReadable(text, MEMBER_FORMAT, data, pos) &&
     MembersReadable(text, data, AllEnd(text, MEMBER_FORMAT, data, pos), n - 1))
  }

  lemma {:induction false} GetMembersFront(text: Text, data: seq<byte>, pos: nat, n: int)
    requires pos <= |data| && n > 0
    ensures GetMembers(text, data, pos, n).Some? <==>
            && GetAll(text, MEMBER_FORMAT, data, pos).Some?
            && GetMembers(text, data, GetAll(text, MEMBER_FORMAT, data, pos).value.1, n - 1).Some?
    ensures GetMembers(text, data, pos, n).Some? ==>
              GetMembers(text, data, pos, n).value.1 ==
              GetMembers(text, data, GetAll(text, MEMBER_FORMAT, data, pos).value.1, n - 1).value.1
    decreases n
  {
    hide GetAll;
    if n > 1 {
      GetMembersFront(text, data, pos, n - 1);
    } else {
      assert GetMembers(text, data, pos, 0) == Some(([], pos));
    }
  }

  lemma {:induction false} MembersReadableExactly(text: Text, data: seq<byte>, pos: nat, n: int)
    requires pos <= |data|
    ensures GetMembers(text, data, pos, n).Some? <==> MembersReadable(text, data, pos, n)
    decreases if n > 0 then n else 0
  {
    if n > 0 {
      GetMembersFront(text, data, pos, n);
      AllReadableExactly(text, MEMBER_FORMAT, data, pos);
      hide GetAll, AllReadable, AllEnd;
      if AllReadable(text, MEMBER_FORMAT, data, pos) {
        MembersReadableExactly(text, data, AllEnd(text, MEMBER_FORMAT, data, pos), n - 1);
      }
    }
  }

  /** The fixed fields, of which the last four bytes are the number of members, and the members. */
  predicate MetadataReadable(text: Text, data: seq<byte>) {
    AllReadable(text, METADATA_FORMAT, data, 0) &&
    var end := AllEnd(text, METADATA_FORMAT, data, 0);
    end >= 4 && MembersReadable(text, data, end, Big(data, end - 4, 4))
  }

  lemma MetadataReadableExactly(text: Text, data: seq<byte>)
    ensures GetMetadata(text, data).Some? <==> MetadataReadable(text, data)
  {
    hide GetAll, AllReadable, AllEnd, Big, GetMembers, MembersReadable, IntOf;
    AllReadableExactly(text, METADATA_FORMAT, data, 0);
    if GetAll(text, METADATA_FORMAT, data, 0).Some? {
      LastIsCount(text, data);
      var (vs, end) := GetAll(text, METADATA_FORMAT, data, 0).value;
      MembersReadableExactly(text, data, end, IntOf(vs[6]));
    }
  }

  lemma LastIsCount(text: Text, data: seq<byte>)
    requires GetAll(text, METADATA_FORMAT, data, 0).Some?
    ensures var (vs, end) := GetAll(text, METADATA_FORMAT, data, 0).value;
            end >= 4 && IntOf(vs[6]) == Big(data, end - 4, 4)
  {
    hide Big;
    var fs := METADATA_FORMAT;
    assert fs[|fs| - 1] == IntF(4) && |fs| == 7;
  }

  predicate KeyReadable(text: Text, key: seq<byte>) {
    |key| >= 2 && AllReadable(text, KeyFormat(KeyKind(Big(key, 0, 2))), key, 0)
  }

  predicate CommitReadable(text: Text, value: seq<byte>) {
    |value| >= 2 && AllReadable(text, CommitFormat(Big(value, 0, 2)), value, 0)
  }

  /** A record of user data is decoded if and only if the batch has a date, the key is of version 0,
      1 or 2 with readable fields, and the value is empty or has readable fields. */
  lemma PlainDecodesExactly(text: Text, header: Segments.Header, r: Record)
    requires header.type_ == RAFT_DATA
    ensures var k, v := OrEmpty(r.key), OrEmpty(r.value);
            DecodeRecord(text, header, r).Some? <==>
            && text.isDate(header.firstTs) && KeyReadable(text, k) && 0 <= Big(k, 0, 2) <= 2
            && (v != [] ==> if Big(k, 0, 2) == 2 then MetadataReadable(text, v) else CommitReadable(text, v))
  {
    var k, v := OrEmpty(r.key), OrEmpty(r.value);
    KindsDiffer();
    if |k| >= 2 {
      AllReadableExactly(text, KeyFormat(KeyKind(Big(k, 0, 2))), k, 0);
    }
    if |v| >= 2 {
      AllReadableExactly(text, CommitFormat(Big(v, 0, 2)), v, 0);
    }
    hide GetAll, AllReadable, Big, MetadataReadable, GetMetadata, KeyFormat, CommitFormat, GetBig, StringOf, IntOf;
    MetadataReadableExactly(text, v);
  }

  lemma KindsDiffer()
    ensures GROUP_METADATA != OFFSET_COMMIT && UNKNOWN != GROUP_METADATA && UNKNOWN != OFFSET_COMMIT
  {
    assert UNKNOWN[0] == 'u' && GROUP_METADATA[0] == 'g' && OFFSET_COMMIT[0] == 'o';
  }

  function Sum(widths: seq<nat>): nat {
    if widths == [] then 0 else Sum(widths[..|widths| - 1]) + widths[|widths| - 1]
  }

  lemma {:induction false} IntsFitExactly(widths: seq<nat>, data: seq<byte>, pos: nat)
    requires pos <= |data|
    ensures GetInts(widths, data, pos).Some? <==> pos + Sum(widths) <= |data|
    ensures GetInts(widths, data, pos).Some? ==>
              GetInts(widths, data, pos).value.1 == pos + Sum(widths)
                && |GetInts(widths, data, pos).value.0| == |widths|
  {
    if widths != [] {
      IntsFitExactly(widths[..|widths| - 1], data, pos);
    }
  }

  /** How many bytes stand behind the group name. */
  function TxSize(kind: string): nat {
    if kind == TX_FENCE then 20 else if kind == TX_COMMIT then 0 else 8
  }

  lemma TxSizeIs(kind: string)
    ensures Sum(TxWidths(kind)) == TxSize(kind)
  {
    assert [8, 8, 4][..2] == [8, 8] && [8, 8][..1] == [8] && [8][..0] == [];
    assert Sum([]) == 0 && Sum([8]) == 8 && Sum([8, 8]) == 16 && Sum([8, 8, 4]) == 20;
  }

  lemma TxKeyExactly(key: seq<byte>)
    ensures GetTxKey(key).Some? <==> |key| >= 9
    ensures |key| >= 9 ==> GetTxKey(key).value.0 == TxKind(UnpackInt(key[0..1], true))
  {
    hide UnpackInt, TxKind;
    IntsFitExactly([1, 8], key, 0);
    assert [1, 8][..1] == [1] && [1][..0] == [];
    assert Sum([]) == 0 && Sum([1]) == 1 && Sum([1, 8]) == 9;
    assert GetInts([], key, 0) == Some(([], 0));
    if |key| >= 9 {
      assert GetInts([1], key, 0) == Some(([] + [UnpackInt(key[0..1], true)], 1));
    }
  }

  /** A skipped byte, a length that is not below -1, a name that is UTF-8, and room for the numbers
      of this kind of marker. */
  predicate TxValueReadable(text: Text, kind: string, v: seq<byte>) {
    |v| >= 5 &&
    var n := UnpackInt(v[1..5], true);
    n >= -1 &&
    var end := ChunkEnd(v, 5, n);
    text.utf8(v[5..end]).Some? && end + TxSize(kind) <= |v|
  }

  /** A transaction marker is decoded if and only if the batch has a date, the key has nine bytes, and
      the value is readable; in particular it is not empty. */
  lemma TxDecodesExactly(text: Text, header: Segments.Header, r: Record)
    requires header.type_ != RAFT_DATA
    ensures var k, v := OrEmpty(r.key), OrEmpty(r.value);
            DecodeRecord(text, header, r).Some? <==>
            text.isDate(header.firstTs) && |k| >= 9 && TxValueReadable(text, TxKind(UnpackInt(k[0..1], true)), v)
  {
    var k, v := OrEmpty(r.key), OrEmpty(r.value);
    TxKeyExactly(k);
    if |k| >= 9 && v != [] {
      TxValueExactly(text, TxKind(UnpackInt(k[0..1], true)), v);
    }
    hide GetTxKey, GetTxValue, TxKind, UnpackInt;
  }

  lemma TxValueExactly(text: Text, kind: string, v: seq<byte>)
    requires v != []
    ensures GetTxValue(text, kind, v).Some? <==> TxValueReadable(text, kind, v)
  {
    hide UnpackInt, TxWidths, TxSize, GetInts;
    TxSizeIs(kind);
    if |v| >= 5 {
      var n := UnpackInt(v[1..5], true);
      if n >= -1 {
        IntsFitExactly(TxWidths(kind), v, ChunkEnd(v, 5, n));
      }
    }
  }

  // ---------------------------------------------------------------------------------------
  // Reading back what was written
  // ---------------------------------------------------------------------------------------

  function EncodeBig(i: int, width: nat): (r: seq<byte>)
    requires InRange(i, width, true)
    ensures |r| == width
  {
    Segments.Backwards(PackInt(i, width, true))
  }

  ghost predicate Fits(enc: string -> seq<byte>, f: Format, v: FieldVal) {
    match f
    case IntF(width) => v.IntV? && InRange(v.i, width, true)
    case StringF => v.StringV? && InRange(|enc(v.s)|, 2, true)
    case OptionalStringF => v.MissingV? || (v.StringV? && InRange(|enc(v.s)|, 2, true))
    case BytesF => v.BytesV? && InRange(|v.bs|, 4, true)
  }

  ghost function EncodeKafka(enc: string -> seq<byte>, f: Format, v: FieldVal): seq<byte>
    requires Fits(enc, f, v)
  {
    match f
    case IntF(width) => EncodeBig(v.i, width)
    case StringF => EncodeBig(|enc(v.s)|, 2) + enc(v.s)
    case OptionalStringF =>
      if v.MissingV? then (MinusOneFits(); EncodeBig(-1, 2)) else EncodeBig(|enc(v.s)|, 2) + enc(v.s)
    case BytesF => EncodeBig(|v.bs|, 4) + v.bs
  }

  lemma MinusOneFits()
    ensures InRange(-1, 2, true)
  {
    assert Pow256(2) == 256 * Pow256(1) && Pow256(1) == 256 * Pow256(0);
  }

  ghost predicate AllFit(enc: string -> seq<byte>, fs: seq<Format>, vs: seq<FieldVal>) {
    |vs| == |fs| && forall i :: 0 <= i < |fs| ==> Fits(enc, fs[i], vs[i])
  }

  ghost function EncodeFields(enc: string -> seq<byte>, fs: seq<Format>, vs: seq<FieldVal>): seq<byte>
    requires AllFit(enc, fs, vs)
  {
    if fs == [] then []
    else
      var n := |fs| - 1;
      EncodeFields(enc, fs[..n], vs[..n]) + EncodeKafka(enc, fs[n], vs[n])
  }

  /** The encoder that the decoder undoes. */
  ghost predicate Encodes(text: Text, enc: string -> seq<byte>) {
    forall s :: text.utf8(enc(s)) == Some(s)
  }

  lemma {:induction false} BackwardsAppend(a: seq<byte>, b: seq<byte>)
    ensures Segments.Backwards(a + b) == Segments.Backwards(b) + Segments.Backwards(a)
  {
    if a == [] {
      assert a + b == b;
    } else {
      BackwardsAppend(a[1..], b);
      assert (a + b)[1..] == a[1..] + b;
    }
  }

  lemma {:induction false} BackwardsTwice(bs: seq<byte>)
    ensures Segments.Backwards(Segments.Backwards(bs)) == bs
  {
    if bs != [] {
      BackwardsTwice(bs[1..]);
      BackwardsAppend(Segments.Backwards(bs[1..]), [bs[0]]);
      assert [bs[0]][1..] == [] && Segments.Backwards([bs[0]]) == [bs[0]];
      assert bs == [bs[0]] + bs[1..];
    }
  }

  lemma BigAt(data: seq<byte>, pos: nat, i: int, width: nat)
    requires InRange(i, width, true) && Holds(data, pos, EncodeBig(i, width))
    ensures GetBig(data, pos, width) == Some((i, pos + width))
  {
    BackwardsTwice(PackInt(i, width, true));
    PackedInt(i, width, true);
  }

  lemma KafkaAt(text: Text, enc: string -> seq<byte>, f: Format, v: FieldVal, data: seq<byte>, pos: nat)
    requires Encodes(text, enc) && Fits(enc, f, v) && pos <= |data| && Holds(data, pos, EncodeKafka(enc, f, v))
    ensures GetKafka(text, f, data, pos) == Some((v, pos + |EncodeKafka(enc, f, v)|))
  {
    hide Holds, GetBig, GetBytes, EncodeBig, InRange;
    match f
    case IntF(width) => BigAt(data, pos, v.i, width);
    case StringF => StringAt(text, enc, v.s, data, pos);
    case OptionalStringF =>
      if v.MissingV? {
        MinusOneFits();
        BigAt(data, pos, -1, 2);
      } else {
        StringAt(text, enc, v.s, data, pos);
      }
    case BytesF =>
      HoldsParts(data, pos, EncodeBig(|v.bs|, 4), v.bs);
      BigAt(data, pos, |v.bs|, 4);
      BytesAt(data, pos + 4, v.bs);
  }

  lemma StringAt(text: Text, enc: string -> seq<byte>, s: string, data: seq<byte>, pos: nat)
    requires Encodes(text, enc) && InRange(|enc(s)|, 2, true) && pos <= |data|
    requires Holds(data, pos, EncodeBig(|enc(s)|, 2) + enc(s))
    ensures GetBig(data, pos, 2) == Some((|enc(s)|, pos + 2))
    ensures GetText(text, data, pos + 2, |enc(s)|) == Some((s, pos + 2 + |enc(s)|))
  {
    hide GetBig, GetBytes, EncodeBig, InRange;
    HoldsParts(data, pos, EncodeBig(|enc(s)|, 2), enc(s));
    BigAt(data, pos, |enc(s)|, 2);
    BytesAt(data, pos + 2, enc(s));
  }

  lemma {:induction false} FieldsAt(text: Text, enc: string -> seq<byte>, fs: seq<Format>, vs: seq<FieldVal>,
                                    data: seq<byte>, pos: nat)
    requires Encodes(text, enc) && AllFit(enc, fs, vs) && pos <= |data| && Holds(data, pos, EncodeFields(enc, fs, vs))
    ensures GetAll(text, fs, data, pos) == Some((vs, pos + |EncodeFields(enc, fs, vs)|))
  {
    hide Holds, GetKafka, EncodeKafka, Fits, Encodes, GetAll, EncodeFields;
    if fs == [] {
      NoFieldsAt(text, enc, data, pos);
    } else {
      var n := |fs| - 1;
      var e, last := EncodeFields(enc, fs[..n], vs[..n]), EncodeKafka(enc, fs[n], vs[n]);
      EncodeFieldsSnoc(enc, fs, vs);
      HoldsParts(data, pos, e, last);
      FieldsAt(text, enc, fs[..n], vs[..n], data, pos);
      KafkaAt(text, enc, fs[n], vs[n], data, pos + |e|);
      GetAllSnoc(text, fs, data, pos, vs[..n], pos + |e|, vs[n], pos + |e| + |last|);
      SplitLast(vs);
    }
  }

  lemma NoFieldsAt(text: Text, enc: string -> seq<byte>, data: seq<byte>, pos: nat)
    requires pos <= |data|
    ensures GetAll(text, [], data, pos) == Some(([], pos)) && EncodeFields(enc, [], []) == []
  {
  }

  lemma EncodeFieldsSnoc(enc: string -> seq<byte>, fs: seq<Format>, vs: seq<FieldVal>)
    requires AllFit(enc, fs, vs) && fs != []
    ensures var n := |fs| - 1;
            EncodeFields(enc, fs, vs) == EncodeFields(enc, fs[..n], vs[..n]) + EncodeKafka(enc, fs[n], vs[n])
  {
    hide EncodeKafka, Fits;
  }

  lemma GetAllSnoc(text: Text, fs: seq<Format>, data: seq<byte>, pos: nat, vs: seq<FieldVal>, next: nat, v: FieldVal,
                   end: nat)
    requires fs != [] && pos <= |data| && next <= |data|
    requires GetAll(text, fs[..|fs| - 1], data, pos) == Some((vs, next))
    requires GetKafka(text, fs[|fs| - 1], data, next) == Some((v, end))
    ensures GetAll(text, fs, data, pos) == Some((vs + [v], end))
  {
    hide GetKafka;
  }

  /** The first field alone. */
  lemma {:induction false} FirstAt(enc: string -> seq<byte>, fs: seq<Format>, vs: seq<FieldVal>, data: seq<byte>)
    requires AllFit(enc, fs, vs) && fs != [] && fs[0] == IntF(2) && Holds(data, 0, EncodeFields(enc, fs, vs))
    ensures GetBig(data, 0, 2) == Some((vs[0].i, 2))
  {
    hide Holds, GetBig;
    var n := |fs| - 1;
    HoldsParts(data, 0, EncodeFields(enc, fs[..n], vs[..n]), EncodeKafka(enc, fs[n], vs[n]));
    if n == 0 {
      assert EncodeFields(enc, fs[..0], vs[..0]) == [];
      assert Fits(enc, fs[0], vs[0]);
      BigAt(data, 0, vs[0].i, 2);
    } else {
      FirstAt(enc, fs[..n], vs[..n], data);
    }
  }

  // ---------------------------------------------------------------------------------------
  // Records that do not decode
  // ---------------------------------------------------------------------------------------

  /** A marker with a readable key and no value. */
  lemma EmptyMarkerRaises(text: Text, header: Segments.Header, r: Record)
    requires header.type_ != RAFT_DATA && |OrEmpty(r.key)| >= 9 && OrEmpty(r.value) == []
    ensures GetTxKey(OrEmpty(r.key)).Some? && DecodeRecord(text, header, r).None?
  {
    TxKeyExactly(OrEmpty(r.key));
    TxDecodesExactly(text, header, r);
  }
}
