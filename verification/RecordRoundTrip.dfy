/**
  * Encoding records the way the broker writes them, and reading them back: the iterator returns
  * exactly the records that were encoded and consumes exactly their bytes.
  */
module RecordRoundTrip {
  import opened Wrappers
  import opened Sequences
  import opened Varint
  import opened Records

  /** The bytes `bs` stand at `pos`. */
  ghost predicate Holds(data: seq<byte>, pos: nat, bs: seq<byte>) {
    pos + |bs| <= |data| && data[pos..pos + |bs|] == bs
  }

  lemma HoldsItself(data: seq<byte>)
    ensures Holds(data, 0, data)
  {
    assert data[0..|data|] == data;
  }

  lemma HoldsParts(data: seq<byte>, pos: nat, a: seq<byte>, b: seq<byte>)
    requires Holds(data, pos, a + b)
    ensures Holds(data, pos, a) && Holds(data, pos + |a|, b)
  {
    var w := data[pos..pos + |a + b|];
    assert data[pos..pos + |a|] == w[..|a|] == a;
    assert data[pos + |a|..pos + |a| + |b|] == w[|a|..] == b;
  }

  function Signed(i: int): (r: seq<byte>)
    ensures |r| > 0
  {
    EncodeVarint(EncodeZigZag(i))
  }

  function EncodeBlob(b: Option<seq<byte>>): seq<byte> {
    match b
    case None => Signed(-1)
    case Some(bs) => Signed(|bs|) + bs
  }

  function EncodeSized(bs: seq<byte>): seq<byte> {
    Signed(|bs|) + bs
  }

  function EncodeHeaders(hs: seq<RecordHeader>): seq<byte> {
    if hs == [] then []
    else
      var h := hs[|hs| - 1];
      EncodeHeaders(hs[..|hs| - 1]) + (EncodeSized(h.key) + EncodeSized(h.value))
  }

  function EncodeRecord(r: Record): seq<byte>
    requires InRange(r.attrs, 1, true)
  {
    Signed(r.length) + (PackInt(r.attrs, 1, true) +
      (Signed(r.timestampDelta) + (Signed(r.offsetDelta) + EncodeContent(r))))
  }

  function EncodeContent(r: Record): seq<byte> {
    EncodeBlob(r.key) + (EncodeBlob(r.value) + (Signed(|r.headers|) + EncodeHeaders(r.headers)))
  }

  ghost predicate AttrsFit(rs: seq<Record>) {
    forall i :: 0 <= i < |rs| ==> InRange(rs[i].attrs, 1, true)
  }

  function EncodeRecords(rs: seq<Record>): seq<byte>
    requires AttrsFit(rs)
  {
    if rs == [] then [] else EncodeRecords(rs[..|rs| - 1]) + EncodeRecord(rs[|rs| - 1])
  }

  /** The viewer does not tell an empty key or value from a missing one. */
  function Plain(b: Option<seq<byte>>): Option<seq<byte>> {
    if b == Some([]) then None else b
  }

  function Seen(r: Record): Record {
    r.(key := Plain(r.key), value := Plain(r.value))
  }

  function AllSeen(rs: seq<Record>): seq<Record> {
    seq(|rs|, i requires 0 <= i < |rs| => Seen(rs[i]))
  }

  lemma SignedAt(data: seq<byte>, pos: nat, i: int)
    requires Holds(data, pos, Signed(i))
    ensures GetVarint(data, pos) == Some((i, pos + |Signed(i)|))
  {
    VarintAt(data, pos, EncodeZigZag(i));
    ZigZagBijection(0, i);
  }

  lemma BytesAt(data: seq<byte>, pos: nat, bs: seq<byte>)
    requires Holds(data, pos, bs)
    ensures GetBytes(data, pos, |bs|) == Some((bs, pos + |bs|))
  {
  }

  lemma SizedAt(data: seq<byte>, pos: nat, bs: seq<byte>)
    requires Holds(data, pos, EncodeSized(bs))
    ensures GetSized(data, pos) == Some((bs, pos + |EncodeSized(bs)|))
  {
    HoldsParts(data, pos, Signed(|bs|), bs);
    SignedAt(data, pos, |bs|);
    BytesAt(data, pos + |Signed(|bs|)|, bs);
  }

  lemma BlobAt(data: seq<byte>, pos: nat, b: Option<seq<byte>>)
    requires Holds(data, pos, EncodeBlob(b))
    ensures GetBlob(data, pos) == Some((Plain(b), pos + |EncodeBlob(b)|))
  {
    match b
    case None => SignedAt(data, pos, -1);
    case Some(bs) =>
      HoldsParts(data, pos, Signed(|bs|), bs);
      SignedAt(data, pos, |bs|);
      BytesAt(data, pos + |Signed(|bs|)|, bs);
  }

  /** Any length that is not positive stands for a missing key or value. */
  lemma NoLengthAt(data: seq<byte>, pos: nat, n: int)
    requires n <= 0 && Holds(data, pos, Signed(n))
    ensures var r := GetBlob(data, pos);
            r.Some? && r.value.0.None? && r.value.1 == pos + |Signed(n)|
  {
    SignedAt(data, pos, n);
  }

  lemma HeaderAt(data: seq<byte>, pos: nat, h: RecordHeader)
    requires Holds(data, pos, EncodeSized(h.key) + EncodeSized(h.value))
    ensures GetHeader(data, pos) == Some((h, pos + |EncodeSized(h.key)| + |EncodeSized(h.value)|))
  {
    hide Holds, EncodeSized, GetSized;
    HoldsParts(data, pos, EncodeSized(h.key), EncodeSized(h.value));
    SizedAt(data, pos, h.key);
    SizedAt(data, pos + |EncodeSized(h.key)|, h.value);
  }

  lemma {:induction false} HeadersAt(data: seq<byte>, pos: nat, hs: seq<RecordHeader>)
    requires pos <= |data| && Holds(data, pos, EncodeHeaders(hs))
    ensures GetHeaders(data, pos, |hs|) == Some((hs, pos + |EncodeHeaders(hs)|))
  {
    hide Holds, EncodeSized, GetHeader, EncodeHeaders, GetHeaders;
    if hs == [] {
      NothingAt(data, pos);
    } else {
      var rest, h := hs[..|hs| - 1], hs[|hs| - 1];
      var e := EncodeHeaders(rest);
      EncodeHeadersSnoc(hs);
      HoldsParts(data, pos, e, EncodeSized(h.key) + EncodeSized(h.value));
      HeadersAt(data, pos, rest);
      HeaderAt(data, pos + |e|, h);
      GetHeadersSnoc(data, pos, rest, pos + |e|, h, pos + |e| + |EncodeSized(h.key)| + |EncodeSized(h.value)|);
      SplitLast(hs);
    }
  }

  lemma NothingAt(data: seq<byte>, pos: nat)
    requires pos <= |data|
    ensures GetHeaders(data, pos, 0) == Some(([], pos)) && EncodeHeaders([]) == []
    ensures GetRecords(data, pos, 0) == Some(([], pos)) && EncodeRecords([]) == []
  {
  }

  lemma EncodeHeadersSnoc(hs: seq<RecordHeader>)
    requires hs != []
    ensures var h := hs[|hs| - 1];
            EncodeHeaders(hs) == EncodeHeaders(hs[..|hs| - 1]) + (EncodeSized(h.key) + EncodeSized(h.value))
  {
    hide EncodeSized;
  }

  lemma GetHeadersSnoc(data: seq<byte>, pos: nat, hs: seq<RecordHeader>, next: nat, h: RecordHeader, end: nat)
    requires pos <= |data| && GetHeaders(data, pos, |hs|) == Some((hs, next)) && GetHeader(data, next) == Some((h, end))
    ensures GetHeaders(data, pos, |hs| + 1) == Some((hs + [h], end))
  {
    hide GetHeader;
  }

  /** The key, the value and the headers of a record. */
  lemma ContentAt(data: seq<byte>, pos: nat, r: Record)
    requires Holds(data, pos, EncodeContent(r))
    ensures var p5 := pos + |EncodeBlob(r.key)|;
            var p6 := p5 + |EncodeBlob(r.value)|;
            var p7 := p6 + |Signed(|r.headers|)|;
            && GetBlob(data, pos) == Some((Plain(r.key), p5)) && GetBlob(data, p5) == Some((Plain(r.value), p6))
            && GetVarint(data, p6) == Some((|r.headers|, p7)) && p7 <= |data|
            && GetHeaders(data, p7, |r.headers|) == Some((r.headers, pos + |EncodeContent(r)|))
  {
    hide Holds, GetVarint, GetBlob, GetHeaders, EncodeBlob, EncodeHeaders, Signed, Plain;
    var e7 := Signed(|r.headers|) + EncodeHeaders(r.headers);
    HoldsParts(data, pos, EncodeBlob(r.key), EncodeBlob(r.value) + e7);
    BlobAt(data, pos, r.key);
    var p5 := pos + |EncodeBlob(r.key)|;
    HoldsParts(data, p5, EncodeBlob(r.value), e7);
    BlobAt(data, p5, r.value);
    var p6 := p5 + |EncodeBlob(r.value)|;
    HoldsParts(data, p6, Signed(|r.headers|), EncodeHeaders(r.headers));
    SignedAt(data, p6, |r.headers|);
    HeadersAt(data, p6 + |Signed(|r.headers|)|, r.headers);
  }

  /** The numbers that a record starts with. */
  lemma NumbersAt(data: seq<byte>, pos: nat, r: Record, rest: seq<byte>)
    requires InRange(r.attrs, 1, true)
    requires Holds(data, pos, Signed(r.length) + (PackInt(r.attrs, 1, true) +
             (Signed(r.timestampDelta) + (Signed(r.offsetDelta) + rest))))
    ensures var p1 := pos + |Signed(r.length)|;
            var p3 := p1 + 1 + |Signed(r.timestampDelta)|;
            var p4 := p3 + |Signed(r.offsetDelta)|;
            && GetVarint(data, pos) == Some((r.length, p1)) && GetInt(data, p1, 1, true) == Some((r.attrs, p1 + 1))
            && GetVarint(data, p1 + 1) == Some((r.timestampDelta, p3))
              && GetVarint(data, p3) == Some((r.offsetDelta, p4))
            && Holds(data, p4, rest)
  {
    hide Holds, GetVarint, GetInt, Signed, PackInt, InRange;
    var e4 := Signed(r.offsetDelta) + rest;
    var e3 := Signed(r.timestampDelta) + e4;
    HoldsParts(data, pos, Signed(r.length), PackInt(r.attrs, 1, true) + e3);
    SignedAt(data, pos, r.length);
    var p1 := pos + |Signed(r.length)|;
    HoldsParts(data, p1, PackInt(r.attrs, 1, true), e3);
    IntAt(data, p1, r.attrs);
    HoldsParts(data, p1 + 1, Signed(r.timestampDelta), e4);
    SignedAt(data, p1 + 1, r.timestampDelta);
    var p3 := p1 + 1 + |Signed(r.timestampDelta)|;
    HoldsParts(data, p3, Signed(r.offsetDelta), rest);
    SignedAt(data, p3, r.offsetDelta);
  }

  lemma RecordAt(data: seq<byte>, pos: nat, r: Record)
    requires InRange(r.attrs, 1, true) && Holds(data, pos, EncodeRecord(r))
    ensures GetRecord(data, pos) == Some((Seen(r), pos + |EncodeRecord(r)|))
  {
    hide Holds, GetVarint, GetInt, GetBlob, GetHeaders, EncodeContent, Signed, PackInt, InRange, Plain;
    NumbersAt(data, pos, r, EncodeContent(r));
    ContentAt(data, pos + |Signed(r.length)| + 1 + |Signed(r.timestampDelta)| + |Signed(r.offsetDelta)|, r);
  }

  lemma IntAt(data: seq<byte>, pos: nat, v: int)
    requires InRange(v, 1, true) && Holds(data, pos, PackInt(v, 1, true))
    ensures GetInt(data, pos, 1, true) == Some((v, pos + 1))
  {
    PackedInt(v, 1, true);
  }

  lemma {:induction false} RecordsAt(data: seq<byte>, pos: nat, rs: seq<Record>)
    requires AttrsFit(rs) && pos <= |data| && Holds(data, pos, EncodeRecords(rs))
    ensures GetRecords(data, pos, |rs|) == Some((AllSeen(rs), pos + |EncodeRecords(rs)|))
  {
    hide GetRecord, EncodeRecord, Holds, InRange, GetRecords, EncodeRecords;
    if rs == [] {
      NothingAt(data, pos);
      assert AllSeen(rs) == [];
    } else {
      var rest, r := rs[..|rs| - 1], rs[|rs| - 1];
      var e := EncodeRecords(rest);
      EncodeRecordsSnoc(rs);
      HoldsParts(data, pos, e, EncodeRecord(r));
      RecordsAt(data, pos, rest);
      RecordAt(data, pos + |e|, r);
      GetRecordsSnoc(data, pos, AllSeen(rest), pos + |e|, Seen(r), pos + |e| + |EncodeRecord(r)|);
      assert AllSeen(rs) == AllSeen(rest) + [Seen(r)];
    }
  }

  lemma EncodeRecordsSnoc(rs: seq<Record>)
    requires AttrsFit(rs) && rs != []
    ensures EncodeRecords(rs) == EncodeRecords(rs[..|rs| - 1]) + EncodeRecord(rs[|rs| - 1])
  {
    hide EncodeRecord;
  }

  lemma GetRecordsSnoc(data: seq<byte>, pos: nat, rs: seq<Record>, next: nat, r: Record, end: nat)
    requires pos <= |data| && GetRecords(data, pos, |rs|) == Some((rs, next)) && GetRecord(data, next) == Some((r, end))
    ensures GetRecords(data, pos, |rs| + 1) == Some((rs + [r], end))
  {
    hide GetRecord;
  }

  /** Iterating over an encoded batch yields its records, and nothing is left over. */
  lemma RecordsRoundTrip(rs: seq<Record>)
    requires AttrsFit(rs)
    ensures GetRecords(EncodeRecords(rs), 0, |rs|) == Some((AllSeen(rs), |EncodeRecords(rs)|))
  {
    hide GetRecords, EncodeRecords;
    var data := EncodeRecords(rs);
    assert data[0..|data|] == data;
    RecordsAt(data, 0, rs);
  }

  // ---------------------------------------------------------------------------------------
  // Null header values
  // ---------------------------------------------------------------------------------------

  /** A header whose value is null takes the rest of the data as its value; any other is read as
      it was written. */
  lemma HeaderReadsExactly(data: seq<byte>, pos: nat, key: seq<byte>, value: Option<seq<byte>>)
    requires Holds(data, pos, EncodeSized(key) + EncodeBlob(value))
    ensures var end := pos + |EncodeSized(key)| + |EncodeBlob(value)|;
            && end <= |data|
            && GetHeader(data, pos) ==
               if value.Some? then Some((RecordHeader(key, value.value), end))
               else Some((RecordHeader(key, data[end..]), |data|))
  {
    HoldsParts(data, pos, EncodeSized(key), EncodeBlob(value));
    match value
    case Some(bs) => HeaderAt(data, pos, RecordHeader(key, bs));
    case None =>
      hide Holds, EncodeSized, Signed;
      SizedAt(data, pos, key);
      var p := pos + |EncodeSized(key)|;
      SignedAt(data, p, -1);
      var end := p + |Signed(-1)|;
      assert data[end..|data|] == data[end..];
      assert GetSized(data, p) == Some((data[end..], |data|));
  }

  /** A record up to a null header value, with `after` headers announced behind it. */
  function NullValued(r: Record, key: seq<byte>, after: nat): seq<byte>
    requires InRange(r.attrs, 1, true)
  {
    Signed(r.length) + (PackInt(r.attrs, 1, true) + (Signed(r.timestampDelta) + (Signed(r.offsetDelta) +
      (EncodeBlob(r.key) + (EncodeBlob(r.value) + (Signed(|r.headers| + 1 + after) +
        (EncodeHeaders(r.headers) + (EncodeSized(key) + Signed(-1)))))))))
  }

  /** The null value swallows whatever comes behind it, so further headers are missing. */
  lemma NullValuedAt(data: seq<byte>, pos: nat, r: Record, key: seq<byte>, after: nat)
    requires InRange(r.attrs, 1, true) && Holds(data, pos, NullValued(r, key, after))
    ensures pos + |NullValued(r, key, after)| <= |data|
    ensures var swallowed := RecordHeader(key, data[pos + |NullValued(r, key, after)|..]);
            GetRecord(data, pos) ==
            if after == 0 then Some((Seen(r).(headers := r.headers + [swallowed]), |data|)) else None
  {
    hide Holds, GetVarint, GetInt, GetBlob, GetHeaders, GetHeader, EncodeBlob, EncodeHeaders, EncodeSized, Signed,
      PackInt,
      InRange, Plain;
    var count := |r.headers| + 1 + after;
    var e7 := EncodeHeaders(r.headers) + (EncodeSized(key) + Signed(-1));
    var e6 := Signed(count) + e7;
    var e5 := EncodeBlob(r.value) + e6;
    NumbersAt(data, pos, r, EncodeBlob(r.key) + e5);
    var p4 := pos + |Signed(r.length)| + 1 + |Signed(r.timestampDelta)| + |Signed(r.offsetDelta)|;
    HoldsParts(data, p4, EncodeBlob(r.key), e5);
    BlobAt(data, p4, r.key);
    var p5 := p4 + |EncodeBlob(r.key)|;
    HoldsParts(data, p5, EncodeBlob(r.value), e6);
    BlobAt(data, p5, r.value);
    var p6 := p5 + |EncodeBlob(r.value)|;
    HoldsParts(data, p6, Signed(count), e7);
    SignedAt(data, p6, count);
    NullHeadersAt(data, p6 + |Signed(count)|, r.headers, key, after);
  }

  lemma NullHeadersAt(data: seq<byte>, pos: nat, hs: seq<RecordHeader>, key: seq<byte>, after: nat)
    requires pos <= |data| && Holds(data, pos, EncodeHeaders(hs) + (EncodeSized(key) + Signed(-1)))
    ensures var end := pos + |EncodeHeaders(hs) + (EncodeSized(key) + Signed(-1))|;
            && end <= |data|
            && GetHeaders(data, pos, |hs| + 1 + after) ==
               if after == 0 then Some((hs + [RecordHeader(key, data[end..])], |data|)) else None
  {
    hide Holds, GetHeaders, GetHeader, EncodeHeaders, EncodeSized, Signed;
    HoldsParts(data, pos, EncodeHeaders(hs), EncodeSized(key) + Signed(-1));
    HeadersAt(data, pos, hs);
    HeaderReadsExactly(data, pos + |EncodeHeaders(hs)|, key, None);
    var end := pos + |EncodeHeaders(hs) + (EncodeSized(key) + Signed(-1))|;
    GetHeadersSnoc(data, pos, hs, pos + |EncodeHeaders(hs)|, RecordHeader(key, data[end..]), |data|);
    if after > 0 {
      NoHeaderBehind(data, pos, |hs| + 1);
      NoHeader(data, pos, |hs| + 2, |hs| + 1 + after);
    }
  }

  /** A null header value in a batch: the records before it are read, and then the batch is read
      to its count if and only if that header is the last one that was announced. */
  lemma NullHeaderEndsBatch(rs: seq<Record>, r: Record, key: seq<byte>, after: nat, more: seq<byte>, n: nat)
    requires AttrsFit(rs) && InRange(r.attrs, 1, true) && n > |rs|
    ensures var data := EncodeRecords(rs) + (NullValued(r, key, after) + more);
            && GetRecords(data, 0, |rs|) == Some((AllSeen(rs), |EncodeRecords(rs)|))
            && (GetRecords(data, 0, n).Some? <==> after == 0 && n == |rs| + 1)
            && (after == 0 ==>
                  GetRecords(data, 0, |rs| + 1) ==
                  Some((AllSeen(rs) + [Seen(r).(headers := r.headers + [RecordHeader(key, more)])], |data|)))
  {
    hide GetRecord, GetRecords, EncodeRecords, NullValued, InRange;
    var e := EncodeRecords(rs);
    var data := e + (NullValued(r, key, after) + more);
    assert data[0..|e|] == e;
    assert data[|e|..|e| + |NullValued(r, key, after)|] == NullValued(r, key, after);
    assert data[|e| + |NullValued(r, key, after)|..] == more;
    RecordsAt(data, 0, rs);
    NullValuedAt(data, |e|, r, key, after);
    if after > 0 {
      NoRecordAt(data, |rs|);
      NoRecord(data, 0, |rs| + 1, n);
    } else {
      var last := Seen(r).(headers := r.headers + [RecordHeader(key, more)]);
      GetRecordsSnoc(data, 0, AllSeen(rs), |e|, last, |data|);
      NothingBehind(data);
      if n > |rs| + 1 {
        NoRecordAt(data, |rs| + 1);
        NoRecord(data, 0, |rs| + 2, n);
      }
    }
  }

  lemma NothingBehind(data: seq<byte>)
    ensures GetRecord(data, |data|).None? && GetHeader(data, |data|).None?
  {
    assert GetVarint(data, |data|).None?;
  }

  lemma NoHeaderBehind(data: seq<byte>, pos: nat, n: nat)
    requires pos <= |data| && GetHeaders(data, pos, n).Some? && GetHeaders(data, pos, n).value.1 == |data|
    ensures GetHeaders(data, pos, n + 1).None?
  {
    NothingBehind(data);
    hide GetHeader;
  }

  lemma NoRecordAt(data: seq<byte>, n: nat)
    requires GetRecords(data, 0, n).Some? && GetRecord(data, GetRecords(data, 0, n).value.1).None?
    ensures GetRecords(data, 0, n + 1).None?
  {
    hide GetRecord;
  }
}
