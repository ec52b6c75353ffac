/**
  * The records of the offsets topic as they are written, byte by byte, and what they are decoded
  * to.
  */
module OffsetWriting {
  import opened Wrappers
  import opened Varint
  import opened Records
  import opened RecordRoundTrip
  import opened OffsetRecords
  import Segments

  /** How text is written. */
  type Enc = string -> seq<byte>

  // ---------------------------------------------------------------------------------------
  // Writing
  // ---------------------------------------------------------------------------------------

  predicate TextFits(enc: Enc, s: string) {
    InRange(|enc(s)|, 2, true)
  }

  function Str(enc: Enc, s: string): seq<byte>
    requires TextFits(enc, s)
  {
    EncodeBig(|enc(s)|, 2) + enc(s)
  }

  predicate OptionFits(enc: Enc, o: Option<string>) {
    o.Some? ==> TextFits(enc, o.value)
  }

  /** A missing string has length -1. */
  function OptionStr(enc: Enc, o: Option<string>): seq<byte>
    requires OptionFits(enc, o)
  {
    match o
    case None => MinusOneFits(); EncodeBig(-1, 2)
    case Some(s) => Str(enc, s)
  }

  function Buffer(bs: seq<byte>): seq<byte>
    requires InRange(|bs|, 4, true)
  {
    EncodeBig(|bs|, 4) + bs
  }

  predicate GroupKeyFits(enc: Enc, version: int, group: string) {
    InRange(version, 2, true) && TextFits(enc, group)
  }

  /** Group metadata has version 2. */
  function WriteGroupKey(enc: Enc, version: int, group: string): seq<byte>
    requires GroupKeyFits(enc, version, group)
  {
    EncodeBig(version, 2) + Str(enc, group)
  }

  predicate CommitKeyFits(enc: Enc, version: int, group: string, topic: string, partition: int) {
    && (version == 0 || version == 1) && InRange(version, 2, true) && TextFits(enc, group) && TextFits(enc, topic)
    && InRange(partition, 4, true)
  }

  function WriteCommitKey(enc: Enc, version: int, group: string, topic: string, partition: int): seq<byte>
    requires CommitKeyFits(enc, version, group, topic, partition)
  {
    EncodeBig(version, 2) + Str(enc, group) + Str(enc, topic) + EncodeBig(partition, 4)
  }

  /** A commit value: the epoch is written from version 3 on, and the expiry time in version 1. */
  datatype Commit = Commit(version: int, offset: int, epoch: int, note: string, timestamp: int, expiry: int)

  predicate CommitFits(enc: Enc, c: Commit) {
    && InRange(c.version, 2, true) && InRange(c.offset, 8, true) && (c.version >= 3 ==> InRange(c.epoch, 4, true))
    && TextFits(enc, c.note) && InRange(c.timestamp, 8, true) && (c.version == 1 ==> InRange(c.expiry, 8, true))
  }

  function WriteCommit(enc: Enc, c: Commit): seq<byte>
    requires CommitFits(enc, c)
  {
    var start := EncodeBig(c.version, 2) + EncodeBig(c.offset, 8);
    if c.version >= 3 then start + EncodeBig(c.epoch, 4) + Str(enc, c.note) + EncodeBig(c.timestamp, 8)
    else if c.version == 1 then start + Str(enc, c.note) + EncodeBig(c.timestamp, 8) + EncodeBig(c.expiry, 8)
    else start + Str(enc, c.note) + EncodeBig(c.timestamp, 8)
  }

  datatype Member = Member(version: int, id: string, instance: Option<string>, client: string, host: string,
                           rebalanceTimeout: int, sessionTimeout: int, subscription: seq<byte>, assignment: seq<byte>)

  predicate MemberFits(enc: Enc, m: Member) {
    && InRange(m.version, 2, true) && TextFits(enc, m.id) && OptionFits(enc, m.instance) && TextFits(enc, m.client)
    && TextFits(enc, m.host) && InRange(m.rebalanceTimeout, 4, true) && InRange(m.sessionTimeout, 4, true)
    && InRange(|m.subscription|, 4, true) && InRange(|m.assignment|, 4, true)
  }

  function WriteMember(enc: Enc, m: Member): seq<byte>
    requires MemberFits(enc, m)
  {
    EncodeBig(m.version, 2) + Str(enc, m.id) + OptionStr(enc, m.instance) + Str(enc, m.client) + Str(enc, m.host) +
    EncodeBig(m.rebalanceTimeout, 4) + EncodeBig(m.sessionTimeout, 4) + Buffer(m.subscription) + Buffer(m.assignment)
  }

  function WriteMembers(enc: Enc, ms: seq<Member>): seq<byte>
    requires forall i :: 0 <= i < |ms| ==> MemberFits(enc, ms[i])
  {
    if ms == [] then [] else WriteMembers(enc, ms[..|ms| - 1]) + WriteMember(enc, ms[|ms| - 1])
  }

  datatype State = State(version: int, protocolType: string, generation: int, protocol: Option<string>,
                         leader: Option<string>, timestamp: int, members: seq<Member>)

  predicate StateFits(enc: Enc, st: State) {
    && InRange(st.version, 2, true) && TextFits(enc, st.protocolType) && InRange(st.generation, 4, true)
    && OptionFits(enc, st.protocol) && OptionFits(enc, st.leader) && InRange(st.timestamp, 8, true)
    && InRange(|st.members|, 4, true) && (forall i :: 0 <= i < |st.members| ==> MemberFits(enc, st.members[i]))
  }

  function WriteStateHead(enc: Enc, st: State): seq<byte>
    requires StateFits(enc, st)
  {
    EncodeBig(st.version, 2) + Str(enc, st.protocolType) + EncodeBig(st.generation, 4) + OptionStr(enc, st.protocol) +
    OptionStr(enc, st.leader) + EncodeBig(st.timestamp, 8) + EncodeBig(|st.members|, 4)
  }

  function WriteState(enc: Enc, st: State): seq<byte>
    requires StateFits(enc, st)
  {
    WriteStateHead(enc, st) + WriteMembers(enc, st.members)
  }

  // ---------------------------------------------------------------------------------------
  // What the viewer shows of it
  // ---------------------------------------------------------------------------------------

  function OptionVal(o: Option<string>): FieldVal {
    match o case None => MissingV case Some(s) => StringV(s)
  }

  function MemberVals(m: Member): (r: seq<FieldVal>)
    ensures |r| == 9
  {
    [IntV(m.version), StringV(m.id), OptionVal(m.instance), StringV(m.client), StringV(m.host),
      IntV(m.rebalanceTimeout), IntV(m.sessionTimeout), BytesV(m.subscription), BytesV(m.assignment)]
  }

  function StateVals(st: State): (r: seq<FieldVal>)
    ensures |r| == 7
  {
    [IntV(st.version), StringV(st.protocolType), IntV(st.generation), OptionVal(st.protocol), OptionVal(st.leader),
      IntV(st.timestamp), IntV(|st.members|)]
  }

  function MetadataOf(st: State): Metadata {
    Metadata(StateVals(st), AllMemberVals(st.members))
  }

  function AllMemberVals(ms: seq<Member>): seq<seq<FieldVal>> {
    seq(|ms|, i requires 0 <= i < |ms| => MemberVals(ms[i]))
  }

  // ---------------------------------------------------------------------------------------
  // The written bytes are the fields of the formats
  // ---------------------------------------------------------------------------------------

  /** One more field. */
  lemma OneMoreField(enc: Enc, fs: seq<Format>, vs: seq<FieldVal>, k: nat)
    requires AllFit(enc, fs, vs) && k < |fs|
    ensures AllFit(enc, fs[..k], vs[..k]) && AllFit(enc, fs[..k + 1], vs[..k + 1])
    ensures EncodeFields(enc, fs[..k + 1], vs[..k + 1]) ==
            EncodeFields(enc, fs[..k], vs[..k]) + EncodeKafka(enc, fs[k], vs[k])
  {
    hide EncodeKafka, Fits;
    EncodeFieldsSnoc(enc, fs[..k + 1], vs[..k + 1]);
    assert fs[..k + 1][..k] == fs[..k] && vs[..k + 1][..k] == vs[..k];
  }

  /** The first fields, up to `n`, are these bytes one behind the other. */
  ghost predicate Starts(enc: Enc, fs: seq<Format>, vs: seq<FieldVal>, n: nat, bytes: seq<byte>)
    requires AllFit(enc, fs, vs)
  {
    n <= |fs| && EncodeFields(enc, fs[..n], vs[..n]) == bytes
  }

  lemma StartsWithFirst(enc: Enc, fs: seq<Format>, vs: seq<FieldVal>)
    requires AllFit(enc, fs, vs) && fs != []
    ensures Starts(enc, fs, vs, 1, EncodeKafka(enc, fs[0], vs[0]))
  {
    OneMoreField(enc, fs, vs, 0);
    hide EncodeKafka, Fits;
    assert EncodeFields(enc, fs[..0], vs[..0]) == [];
    assert [] + EncodeKafka(enc, fs[0], vs[0]) == EncodeKafka(enc, fs[0], vs[0]);
  }

  lemma StartsOn(enc: Enc, fs: seq<Format>, vs: seq<FieldVal>, n: nat, bytes: seq<byte>)
    requires AllFit(enc, fs, vs) && Starts(enc, fs, vs, n, bytes) && n < |fs|
    ensures Starts(enc, fs, vs, n + 1, bytes + EncodeKafka(enc, fs[n], vs[n]))
  {
    hide EncodeKafka, Fits, EncodeFields;
    OneMoreField(enc, fs, vs, n);
  }

  lemma StartsAll(enc: Enc, fs: seq<Format>, vs: seq<FieldVal>, bytes: seq<byte>)
    requires AllFit(enc, fs, vs) && Starts(enc, fs, vs, |fs|, bytes)
    ensures EncodeFields(enc, fs, vs) == bytes
  {
    assert fs[..|fs|] == fs && vs[..|vs|] == vs;
  }

  lemma IntField(enc: Enc, i: int, width: nat)
    requires InRange(i, width, true)
    ensures Fits(enc, IntF(width), IntV(i)) && EncodeKafka(enc, IntF(width), IntV(i)) == EncodeBig(i, width)
  {
  }

  lemma StringField(enc: Enc, s: string)
    requires TextFits(enc, s)
    ensures Fits(enc, StringF, StringV(s)) && EncodeKafka(enc, StringF, StringV(s)) == Str(enc, s)
  {
  }

  lemma OptionField(enc: Enc, o: Option<string>)
    requires OptionFits(enc, o)
    ensures Fits(enc, OptionalStringF, OptionVal(o))
    ensures EncodeKafka(enc, OptionalStringF, OptionVal(o)) == OptionStr(enc, o)
  {
  }

  lemma BufferField(enc: Enc, bs: seq<byte>)
    requires InRange(|bs|, 4, true)
    ensures Fits(enc, BytesF, BytesV(bs)) && EncodeKafka(enc, BytesF, BytesV(bs)) == Buffer(bs)
  {
  }

  lemma MemberIsEncoded(enc: Enc, m: Member)
    requires MemberFits(enc, m)
    ensures AllFit(enc, MEMBER_FORMAT, MemberVals(m))
            && EncodeFields(enc, MEMBER_FORMAT, MemberVals(m)) == WriteMember(enc, m)
  {
    hide InRange, EncodeFields, EncodeKafka, Fits, Starts, EncodeBig, Str, OptionStr, Buffer, OptionVal;
    var fs, vs := MEMBER_FORMAT, MemberVals(m);
    IntField(enc, m.version, 2);
    StringField(enc, m.id);
    OptionField(enc, m.instance);
    StringField(enc, m.client);
    StringField(enc, m.host);
    IntField(enc, m.rebalanceTimeout, 4);
    IntField(enc, m.sessionTimeout, 4);
    BufferField(enc, m.subscription);
    BufferField(enc, m.assignment);
    assert AllFit(enc, fs, vs);
    var b1 := EncodeBig(m.version, 2);
    var b2 := b1 + Str(enc, m.id);
    var b3 := b2 + OptionStr(enc, m.instance);
    var b4 := b3 + Str(enc, m.client);
    var b5 := b4 + Str(enc, m.host);
    var b6 := b5 + EncodeBig(m.rebalanceTimeout, 4);
    var b7 := b6 + EncodeBig(m.sessionTimeout, 4);
    var b8 := b7 + Buffer(m.subscription);
    StartsWithFirst(enc, fs, vs);
    StartsOn(enc, fs, vs, 1, b1);
    StartsOn(enc, fs, vs, 2, b2);
    StartsOn(enc, fs, vs, 3, b3);
    StartsOn(enc, fs, vs, 4, b4);
    StartsOn(enc, fs, vs, 5, b5);
    StartsOn(enc, fs, vs, 6, b6);
    StartsOn(enc, fs, vs, 7, b7);
    StartsOn(enc, fs, vs, 8, b8);
    StartsAll(enc, fs, vs, b8 + Buffer(m.assignment));
  }

  lemma StateHeadIsEncoded(enc: Enc, st: State)
    requires StateFits(enc, st)
    ensures AllFit(enc, METADATA_FORMAT, StateVals(st))
    ensures EncodeFields(enc, METADATA_FORMAT, StateVals(st)) == WriteStateHead(enc, st)
  {
    hide InRange, EncodeFields, EncodeKafka, Fits, Starts, EncodeBig, Str, OptionStr, OptionVal, MemberFits;
    var fs, vs := METADATA_FORMAT, StateVals(st);
    IntField(enc, st.version, 2);
    StringField(enc, st.protocolType);
    IntField(enc, st.generation, 4);
    OptionField(enc, st.protocol);
    OptionField(enc, st.leader);
    IntField(enc, st.timestamp, 8);
    IntField(enc, |st.members|, 4);
    assert AllFit(enc, fs, vs);
    var b1 := EncodeBig(st.version, 2);
    var b2 := b1 + Str(enc, st.protocolType);
    var b3 := b2 + EncodeBig(st.generation, 4);
    var b4 := b3 + OptionStr(enc, st.protocol);
    var b5 := b4 + OptionStr(enc, st.leader);
    var b6 := b5 + EncodeBig(st.timestamp, 8);
    StartsWithFirst(enc, fs, vs);
    StartsOn(enc, fs, vs, 1, b1);
    StartsOn(enc, fs, vs, 2, b2);
    StartsOn(enc, fs, vs, 3, b3);
    StartsOn(enc, fs, vs, 4, b4);
    StartsOn(enc, fs, vs, 5, b5);
    StartsOn(enc, fs, vs, 6, b6);
    StartsAll(enc, fs, vs, b6 + EncodeBig(|st.members|, 4));
  }

  function CommitVals(c: Commit): (r: seq<FieldVal>)
    ensures |r| == |CommitFormat(c.version)|
  {
    if c.version >= 3 then [IntV(c.version), IntV(c.offset), IntV(c.epoch), StringV(c.note), IntV(c.timestamp)]
    else if c.version == 1 then [IntV(c.version), IntV(c.offset), StringV(c.note), IntV(c.timestamp), IntV(c.expiry)]
    else [IntV(c.version), IntV(c.offset), StringV(c.note), IntV(c.timestamp)]
  }

  lemma CommitIsEncoded(enc: Enc, c: Commit)
    requires CommitFits(enc, c)
    ensures AllFit(enc, CommitFormat(c.version), CommitVals(c))
    ensures EncodeFields(enc, CommitFormat(c.version), CommitVals(c)) == WriteCommit(enc, c)
  {
    hide InRange, EncodeFields, EncodeKafka, Fits, Starts, EncodeBig, Str;
    var fs, vs := CommitFormat(c.version), CommitVals(c);
    IntField(enc, c.version, 2);
    IntField(enc, c.offset, 8);
    StringField(enc, c.note);
    IntField(enc, c.timestamp, 8);
    if c.version >= 3 {
      assert fs == [IntF(2), IntF(8), IntF(4), StringF, IntF(8)];
      IntField(enc, c.epoch, 4);
      StartsWithFirst(enc, fs, vs);
      var b1 := EncodeBig(c.version, 2);
      var b2 := b1 + EncodeBig(c.offset, 8);
      var b3 := b2 + EncodeBig(c.epoch, 4);
      StartsOn(enc, fs, vs, 1, b1);
      StartsOn(enc, fs, vs, 2, b2);
      StartsOn(enc, fs, vs, 3, b3);
      StartsOn(enc, fs, vs, 4, b3 + Str(enc, c.note));
      StartsAll(enc, fs, vs, WriteCommit(enc, c));
    } else {
      assert c.version == 1 ==> fs == [IntF(2), IntF(8), StringF, IntF(8), IntF(8)];
      assert c.version != 1 ==> fs == [IntF(2), IntF(8), StringF, IntF(8)];
      if c.version == 1 { IntField(enc, c.expiry, 8); }
      StartsWithFirst(enc, fs, vs);
      var b1 := EncodeBig(c.version, 2);
      var b2 := b1 + EncodeBig(c.offset, 8);
      var b3 := b2 + Str(enc, c.note);
      StartsOn(enc, fs, vs, 1, b1);
      StartsOn(enc, fs, vs, 2, b2);
      StartsOn(enc, fs, vs, 3, b3);
      if c.version == 1 { StartsOn(enc, fs, vs, 4, b3 + EncodeBig(c.timestamp, 8)); }
      StartsAll(enc, fs, vs, WriteCommit(enc, c));
    }
  }

  // ---------------------------------------------------------------------------------------
  // Reading keys and values back
  // ---------------------------------------------------------------------------------------

  lemma GroupKeyIsRead(text: Text, enc: Enc, version: int, group: string)
    requires Encodes(text, enc) && GroupKeyFits(enc, version, group) && version != 0 && version != 1
    ensures GetKey(text, WriteGroupKey(enc, version, group)) ==
            Some(Key(if version == 2 then GROUP_METADATA else UNKNOWN, group, "", 0))
  {
    hide InRange, EncodeFields, EncodeKafka, Fits, Starts, EncodeBig, Str, GetAll, GetBig;
    KindsDiffer();
    var fs, vs, key := KeyFormat(KeyKind(version)), [IntV(version), StringV(group)], WriteGroupKey(enc, version, group);
    assert fs == [IntF(2), StringF];
    IntField(enc, version, 2);
    StringField(enc, group);
    StartsWithFirst(enc, fs, vs);
    StartsOn(enc, fs, vs, 1, EncodeBig(version, 2));
    StartsAll(enc, fs, vs, key);
    HoldsItself(key);
    FirstAt(enc, fs, vs, key);
    FieldsAt(text, enc, fs, vs, key, 0);
  }

  lemma CommitKeyIsRead(text: Text, enc: Enc, version: int, group: string, topic: string, partition: int)
    requires Encodes(text, enc) && CommitKeyFits(enc, version, group, topic, partition)
    ensures GetKey(text, WriteCommitKey(enc, version, group, topic, partition)) ==
            Some(Key(OFFSET_COMMIT, group, topic, partition))
  {
    hide InRange, EncodeFields, EncodeKafka, Fits, Starts, EncodeBig, Str, GetAll, GetBig;
    KindsDiffer();
    var fs, vs := KeyFormat(OFFSET_COMMIT), [IntV(version), StringV(group), StringV(topic), IntV(partition)];
    var key := WriteCommitKey(enc, version, group, topic, partition);
    assert fs == [IntF(2), StringF, StringF, IntF(4)];
    IntField(enc, version, 2);
    StringField(enc, group);
    StringField(enc, topic);
    IntField(enc, partition, 4);
    StartsWithFirst(enc, fs, vs);
    StartsOn(enc, fs, vs, 1, EncodeBig(version, 2));
    StartsOn(enc, fs, vs, 2, EncodeBig(version, 2) + Str(enc, group));
    StartsOn(enc, fs, vs, 3, EncodeBig(version, 2) + Str(enc, group) + Str(enc, topic));
    StartsAll(enc, fs, vs, key);
    HoldsItself(key);
    FirstAt(enc, fs, vs, key);
    FieldsAt(text, enc, fs, vs, key, 0);
  }

  lemma CommitIsRead(text: Text, enc: Enc, c: Commit)
    requires Encodes(text, enc) && CommitFits(enc, c)
    ensures WriteCommit(enc, c) != []
    ensures GetCommit(text, WriteCommit(enc, c)) ==
            Some(CommitValue(c.offset, if c.version >= 3 then Some(c.epoch) else None, c.timestamp))
  {
    CommitIsEncoded(enc, c);
    hide InRange, EncodeFields, EncodeKafka, Fits, GetAll, GetBig, EncodeBig, Str;
    var fs, vs, value := CommitFormat(c.version), CommitVals(c), WriteCommit(enc, c);
    HoldsItself(value);
    FirstAt(enc, fs, vs, value);
    FieldsAt(text, enc, fs, vs, value, 0);
  }

  lemma {:induction false} MembersAt(text: Text, enc: Enc, ms: seq<Member>, data: seq<byte>, pos: nat)
    requires Encodes(text, enc) && (forall i :: 0 <= i < |ms| ==> MemberFits(enc, ms[i]))
    requires pos <= |data| && Holds(data, pos, WriteMembers(enc, ms))
    ensures GetMembers(text, data, pos, |ms|) == Some((AllMemberVals(ms), pos + |WriteMembers(enc, ms)|))
    decreases |ms|
  {
    hide Holds, GetAll, EncodeFields, MemberFits, WriteMember, MemberVals, Encodes, AllFit;
    if ms == [] {
      assert AllMemberVals(ms) == [];
    } else {
      var n := |ms| - 1;
      var rest, last := WriteMembers(enc, ms[..n]), WriteMember(enc, ms[n]);
      HoldsParts(data, pos, rest, last);
      MembersAt(text, enc, ms[..n], data, pos);
      MemberIsEncoded(enc, ms[n]);
      FieldsAt(text, enc, MEMBER_FORMAT, MemberVals(ms[n]), data, pos + |rest|);
      assert AllMemberVals(ms) == AllMemberVals(ms[..n]) + [MemberVals(ms[n])];
    }
  }

  lemma StateIsRead(text: Text, enc: Enc, st: State)
    requires Encodes(text, enc) && StateFits(enc, st)
    ensures WriteState(enc, st) != [] && GetMetadata(text, WriteState(enc, st)) == Some(MetadataOf(st))
  {
    hide EncodeFields, GetAll, GetMembers, GetMetadata, WriteStateHead, WriteMembers, StateFits, MemberFits, Holds;
    hide AllFit, AllMemberVals, StateVals, IntOf, WriteState, MetadataOf;
    var data, head, ms := WriteState(enc, st), WriteStateHead(enc, st), MetadataOf(st).members;
    StateHeadIsEncoded(enc, st);
    HeadIsNotEmpty(enc, st);
    MembersFit(enc, st);
    StateParts(enc, st);
    HoldsItself(data);
    HoldsParts(data, 0, head, WriteMembers(enc, st.members));
    FieldsAt(text, enc, METADATA_FORMAT, StateVals(st), data, 0);
    MembersAt(text, enc, st.members, data, |head|);
    MetadataFromParts(text, data, StateVals(st), |head|, ms, |data|);
  }

  lemma StateParts(enc: Enc, st: State)
    requires StateFits(enc, st) && forall i :: 0 <= i < |st.members| ==> MemberFits(enc, st.members[i])
    ensures WriteState(enc, st) == WriteStateHead(enc, st) + WriteMembers(enc, st.members)
    ensures IntOf(StateVals(st)[6]) == |st.members|
    ensures MetadataOf(st) == Metadata(StateVals(st), AllMemberVals(st.members))
  {
    hide WriteStateHead, WriteMembers, StateFits, MemberFits, MemberVals;
  }

  lemma MetadataFromParts(text: Text, data: seq<byte>, vs: seq<FieldVal>, p: nat, ms: seq<seq<FieldVal>>, end: nat)
    requires |vs| == 7 && GetAll(text, METADATA_FORMAT, data, 0) == Some((vs, p)) && p <= |data|
    requires GetMembers(text, data, p, IntOf(vs[6])) == Some((ms, end))
    ensures GetMetadata(text, data) == Some(Metadata(vs, ms))
  {
    hide GetAll, GetMembers, IntOf;
  }

  lemma HeadIsNotEmpty(enc: Enc, st: State)
    requires StateFits(enc, st)
    ensures WriteStateHead(enc, st) != []
  {
    hide EncodeBig, Str, OptionStr, MemberFits, InRange, TextFits, OptionFits;
  }

  lemma MembersFit(enc: Enc, st: State)
    requires StateFits(enc, st)
    ensures forall i :: 0 <= i < |st.members| ==> MemberFits(enc, st.members[i])
  {
    hide MemberFits;
  }

  // ---------------------------------------------------------------------------------------
  // Reading records back
  // ---------------------------------------------------------------------------------------

  /** A value that is missing or empty. */
  predicate NoValue(r: Record) {
    OrEmpty(r.value) == []
  }

  /** Group metadata is decoded to its group, with all the fields and members that were written. */
  lemma MetadataIsDecoded(text: Text, enc: Enc, header: Segments.Header, r: Record, group: string, st: State)
    requires Encodes(text, enc) && header.type_ == RAFT_DATA && text.isDate(header.firstTs)
    requires GroupKeyFits(enc, 2, group) && r.key == Some(WriteGroupKey(enc, 2, group))
    requires StateFits(enc, st) && r.value == Some(WriteState(enc, st))
    ensures DecodeRecord(text, header, r) ==
            Some(Decoded(GROUP_METADATA, group, "", 0, MetadataVal(MetadataOf(st)), header.baseOffset + r.offsetDelta))
  {
    hide GetKey, GetMetadata, WriteGroupKey, WriteState, MetadataOf, StateFits, GroupKeyFits, Encodes;
    GroupKeyIsRead(text, enc, 2, group);
    StateIsRead(text, enc, st);
  }

  /** Without a value it is the tombstone of its group. */
  lemma GroupTombstoneIsDecoded(text: Text, enc: Enc, header: Segments.Header, r: Record, group: string)
    requires Encodes(text, enc) && header.type_ == RAFT_DATA && text.isDate(header.firstTs)
    requires GroupKeyFits(enc, 2, group) && r.key == Some(WriteGroupKey(enc, 2, group)) && NoValue(r)
    ensures DecodeRecord(text, header, r) ==
            Some(Decoded(GROUP_METADATA, group, "", 0, Tombstone, header.baseOffset + r.offsetDelta))
  {
    hide GetKey, WriteGroupKey, GroupKeyFits, Encodes;
    GroupKeyIsRead(text, enc, 2, group);
  }

  /** An offset commit of any version is decoded to the group, topic, partition and fields that were
      written; below version 3 without a leader epoch. */
  lemma CommitIsDecoded(text: Text, enc: Enc, header: Segments.Header, r: Record, version: int, group: string,
                        topic: string, partition: int, c: Commit)
    requires Encodes(text, enc) && header.type_ == RAFT_DATA && text.isDate(header.firstTs)
    requires CommitKeyFits(enc, version, group, topic, partition)
    requires r.key == Some(WriteCommitKey(enc, version, group, topic, partition))
    requires CommitFits(enc, c) && r.value == Some(WriteCommit(enc, c))
    ensures var commit := CommitValue(c.offset, if c.version >= 3 then Some(c.epoch) else None, c.timestamp);
            DecodeRecord(text, header, r) ==
            Some(Decoded(OFFSET_COMMIT, group, topic, partition, CommitVal(commit), header.baseOffset + r.offsetDelta))
  {
    hide GetKey, GetCommit, WriteCommitKey, WriteCommit, CommitFits, CommitKeyFits, Encodes;
    KindsDiffer();
    CommitKeyIsRead(text, enc, version, group, topic, partition);
    CommitIsRead(text, enc, c);
  }

  /** Without a value it is the tombstone of its offset. */
  lemma CommitTombstoneIsDecoded(text: Text, enc: Enc, header: Segments.Header, r: Record, version: int, group: string,
                                 topic: string, partition: int)
    requires Encodes(text, enc) && header.type_ == RAFT_DATA && text.isDate(header.firstTs)
    requires CommitKeyFits(enc, version, group, topic, partition) && NoValue(r)
    requires r.key == Some(WriteCommitKey(enc, version, group, topic, partition))
    ensures DecodeRecord(text, header, r) ==
            Some(Decoded(OFFSET_COMMIT, group, topic, partition, Tombstone, header.baseOffset + r.offsetDelta))
  {
    hide GetKey, WriteCommitKey, CommitKeyFits, Encodes;
    KindsDiffer();
    CommitKeyIsRead(text, enc, version, group, topic, partition);
  }

  /** A complete key of any other version, with or without a value, is not decoded. */
  lemma UnknownKeyRaises(text: Text, enc: Enc, header: Segments.Header, r: Record, version: int, group: string)
    requires Encodes(text, enc) && header.type_ == RAFT_DATA && !(0 <= version <= 2)
    requires GroupKeyFits(enc, version, group) && r.key == Some(WriteGroupKey(enc, version, group))
    ensures GetKey(text, r.key.value) == Some(Key(UNKNOWN, group, "", 0)) && DecodeRecord(text, header, r).None?
  {
    hide GetKey, WriteGroupKey, GroupKeyFits, Encodes;
    KindsDiffer();
    GroupKeyIsRead(text, enc, version, group);
  }

  // ---------------------------------------------------------------------------------------
  // Transaction markers
  // ---------------------------------------------------------------------------------------

  /** A marker: its type and identifier, its group, and up to three numbers.  A fence has a sequence
      number, a timeout and a partition, a commit has none of them, and an abort has a sequence
      number. */
  datatype Marker = Marker(kind: int, id: int, skipped: byte, group: string, seqNumber: int, timeout: int,
    partition: int)

  predicate MarkerFits(enc: Enc, m: Marker) {
    && (m.kind == 10 || m.kind == 15 || m.kind == 16) && InRange(m.kind, 1, true) && InRange(m.id, 8, true)
    && InRange(|enc(m.group)|, 4, true)
    && InRange(m.seqNumber, 8, true) && InRange(m.timeout, 8, true) && InRange(m.partition, 4, true)
  }

  function WriteMarkerKey(enc: Enc, m: Marker): seq<byte>
    requires MarkerFits(enc, m)
  {
    PackInt(m.kind, 1, true) + PackInt(m.id, 8, true)
  }

  function WriteMarker(enc: Enc, m: Marker): seq<byte>
    requires MarkerFits(enc, m)
  {
    [m.skipped] + (PackInt(|enc(m.group)|, 4, true) + (enc(m.group) + WriteNumbers(enc, m)))
  }

  function WriteNumbers(enc: Enc, m: Marker): seq<byte>
    requires MarkerFits(enc, m)
  {
    if m.kind == 10 then PackInt(m.seqNumber, 8, true) + (PackInt(m.timeout, 8, true) + PackInt(m.partition, 4, true))
    else if m.kind == 15 then []
    else PackInt(m.seqNumber, 8, true)
  }

  function MarkerKind(kind: int): string {
    if kind == 10 then "tx_fence" else if kind == 15 then "tx_commit" else "tx_abort"
  }

  function MarkerNumbers(m: Marker): seq<int> {
    if m.kind == 10 then [m.seqNumber, m.timeout, m.partition] else if m.kind == 15 then [] else [m.seqNumber]
  }

  lemma IntAtEnd(data: seq<byte>, pos: nat, i: int, width: nat)
    requires InRange(i, width, true) && Holds(data, pos, PackInt(i, width, true))
    ensures GetInt(data, pos, width, true) == Some((i, pos + width))
  {
    PackedInt(i, width, true);
  }

  /** A transaction marker is decoded to its type, group and numbers. */
  lemma MarkerIsDecoded(text: Text, enc: Enc, header: Segments.Header, r: Record, m: Marker)
    requires Encodes(text, enc) && header.type_ != RAFT_DATA && text.isDate(header.firstTs) && MarkerFits(enc, m)
    requires r.key == Some(WriteMarkerKey(enc, m)) && r.value == Some(WriteMarker(enc, m))
    ensures DecodeRecord(text, header, r) ==
            Some(Decoded(MarkerKind(m.kind), "", "", 0, TxVal(TxValue(m.group, MarkerNumbers(m))),
                         header.baseOffset + r.offsetDelta))
  {
    hide GetTxKey, GetTxValue, WriteMarkerKey, MarkerNumbers;
    MarkerKeyIsRead(enc, m);
    MarkerValueIsRead(text, enc, m);
  }

  lemma MarkerKeyIsRead(enc: Enc, m: Marker)
    requires MarkerFits(enc, m)
    ensures GetTxKey(WriteMarkerKey(enc, m)) == Some((MarkerKind(m.kind), m.id))
  {
    hide InRange, GetInt, PackInt, Holds;
    var key := WriteMarkerKey(enc, m);
    HoldsItself(key);
    HoldsParts(key, 0, PackInt(m.kind, 1, true), PackInt(m.id, 8, true));
    IntAtEnd(key, 0, m.kind, 1);
    IntAtEnd(key, 1, m.id, 8);
    OneInt(1, key, 0, m.kind);
    MoreInts([1], 8, key, 0, [m.kind], 1, m.id);
    assert [1] + [8] == [1, 8] && [m.kind] + [m.id] == [m.kind, m.id];
  }

  lemma OneInt(width: nat, data: seq<byte>, pos: nat, i: int)
    requires pos <= |data| && GetInt(data, pos, width, true) == Some((i, pos + width))
    ensures GetInts([width], data, pos) == Some(([i], pos + width))
  {
    hide GetInt;
    assert [width][..0] == [] && GetInts([], data, pos) == Some(([], pos));
    assert [] + [i] == [i];
  }

  lemma MoreInts(widths: seq<nat>, width: nat, data: seq<byte>, pos: nat, ns: seq<int>, p: nat, i: int)
    requires pos <= |data| && GetInts(widths, data, pos) == Some((ns, p))
    requires GetInt(data, p, width, true) == Some((i, p + width))
    ensures GetInts(widths + [width], data, pos) == Some((ns + [i], p + width))
  {
    hide GetInt;
    assert (widths + [width])[..|widths|] == widths;
  }

  lemma MarkerValueIsRead(text: Text, enc: Enc, m: Marker)
    requires Encodes(text, enc) && MarkerFits(enc, m)
    ensures GetTxValue(text, MarkerKind(m.kind), WriteMarker(enc, m)) == Some(TxValue(m.group, MarkerNumbers(m)))
  {
    hide InRange, GetInt, PackInt, Holds, GetInts, TxWidths, MarkerNumbers, WriteNumbers, GetBytes;
    var v, name, numbers := WriteMarker(enc, m), enc(m.group), WriteNumbers(enc, m);
    var size := PackInt(|name|, 4, true);
    HoldsItself(v);
    HoldsParts(v, 0, [m.skipped], size + (name + numbers));
    HoldsParts(v, 1, size, name + numbers);
    HoldsParts(v, 5, name, numbers);
    IntAtEnd(v, 1, |name|, 4);
    BytesAt(v, 5, name);
    assert 5 + |name| <= |v|;
    NumbersAreRead(enc, m, v, 5 + |name|);
  }

  lemma NumbersAreRead(enc: Enc, m: Marker, data: seq<byte>, pos: nat)
    requires MarkerFits(enc, m) && pos <= |data| && Holds(data, pos, WriteNumbers(enc, m))
    ensures GetInts(TxWidths(MarkerKind(m.kind)), data, pos) == Some((MarkerNumbers(m), pos + |WriteNumbers(enc, m)|))
  {
    hide InRange, GetInt, PackInt, Holds, GetInts;
    var a, b, c := PackInt(m.seqNumber, 8, true), PackInt(m.timeout, 8, true), PackInt(m.partition, 4, true);
    if m.kind == 15 {
      NoInts(data, pos);
    } else if m.kind == 16 {
      IntAtEnd(data, pos, m.seqNumber, 8);
      OneInt(8, data, pos, m.seqNumber);
    } else {
      HoldsParts(data, pos, a, b + c);
      HoldsParts(data, pos + 8, b, c);
      IntAtEnd(data, pos, m.seqNumber, 8);
      IntAtEnd(data, pos + 8, m.timeout, 8);
      IntAtEnd(data, pos + 16, m.partition, 4);
      OneInt(8, data, pos, m.seqNumber);
      MoreInts([8], 8, data, pos, [m.seqNumber], pos + 8, m.timeout);
      assert [8] + [8] == [8, 8] && [8, 8] + [4] == [8, 8, 4];
      assert [m.seqNumber] + [m.timeout] == [m.seqNumber, m.timeout];
      MoreInts([8, 8], 4, data, pos, [m.seqNumber, m.timeout], pos + 16, m.partition);
      assert [m.seqNumber, m.timeout] + [m.partition] == [m.seqNumber, m.timeout, m.partition];
    }
  }

  lemma NoInts(data: seq<byte>, pos: nat)
    requires pos <= |data|
    ensures GetInts([], data, pos) == Some(([], pos))
  {
  }
}
