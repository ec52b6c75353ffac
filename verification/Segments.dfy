/**
  * Reading the batches of a log segment.  Iteration ends quietly at a short read or at a header
  * of zeros, which is how a log looks after a crash; anything else that is wrong raises.
  */
module Segments {
  import opened Wrappers
  import opened Varint
  import opened RecordRoundTrip
  import opened Records

  // ---------------------------------------------------------------------------------------
  // Packed structures
  // ---------------------------------------------------------------------------------------

  datatype FieldFormat = FieldFormat(width: nat, signed: bool)

  function Size(fmt: seq<FieldFormat>): nat {
    if fmt == [] then 0 else fmt[0].width + Size(fmt[1..])
  }

  ghost predicate Fits(fmt: seq<FieldFormat>, vals: seq<int>) {
    |vals| == |fmt| && forall i :: 0 <= i < |fmt| ==> InRange(vals[i], fmt[i].width, fmt[i].signed)
  }

  function Pack(fmt: seq<FieldFormat>, vals: seq<int>, bigEndian: bool): (r: seq<byte>)
    requires Fits(fmt, vals)
    ensures |r| == Size(fmt)
  {
    if fmt == [] then []
    else
      var bs := PackInt(vals[0], fmt[0].width, fmt[0].signed);
      (if bigEndian then Backwards(bs) else bs) + Pack(fmt[1..], vals[1..], bigEndian)
  }

  function Backwards(bs: seq<byte>): (r: seq<byte>)
    ensures |r| == |bs| && forall i :: 0 <= i < |bs| ==> r[i] == bs[|bs| - 1 - i]
  {
    if bs == [] then [] else Backwards(bs[1..]) + [bs[0]]
  }

  function Unpack(fmt: seq<FieldFormat>, bs: seq<byte>): (r: seq<int>)
    requires |bs| == Size(fmt)
    ensures Fits(fmt, r)
  {
    if fmt == [] then []
    else [UnpackInt(bs[..fmt[0].width], fmt[0].signed)] + Unpack(fmt[1..], bs[fmt[0].width..])
  }

  lemma {:induction false} UnpackPacked(fmt: seq<FieldFormat>, vals: seq<int>)
    requires Fits(fmt, vals)
    ensures Unpack(fmt, Pack(fmt, vals, false)) == vals
  {
    if fmt != [] {
      var w, p := fmt[0].width, Pack(fmt, vals, false);
      UnpackPacked(fmt[1..], vals[1..]);
      PackedInt(vals[0], w, fmt[0].signed);
      assert p[..w] == PackInt(vals[0], w, fmt[0].signed);
      assert p[w..] == Pack(fmt[1..], vals[1..], false);
      assert vals == [vals[0]] + vals[1..];
    }
  }

  function Zeros(n: nat): (r: seq<byte>)
    ensures |r| == n && forall i :: 0 <= i < n ==> r[i] == 0
  {
    seq(n, i => 0)
  }

  lemma {:induction false} ZeroInt(n: nat, signed: bool)
    ensures FromLittleEndian(Zeros(n)) == 0 && UnpackInt(Zeros(n), signed) == 0
  {
    if n > 0 {
      ZeroInt(n - 1, signed);
      assert Zeros(n)[1..] == Zeros(n - 1);
    }
  }

  lemma {:induction false} UnpackZeros(fmt: seq<FieldFormat>)
    ensures forall i :: 0 <= i < |fmt| ==> Unpack(fmt, Zeros(Size(fmt)))[i] == 0
  {
    if fmt != [] {
      UnpackZeros(fmt[1..]);
      var z := Zeros(Size(fmt));
      assert z[..fmt[0].width] == Zeros(fmt[0].width) && z[fmt[0].width..] == Zeros(Size(fmt[1..]));
      ZeroInt(fmt[0].width, fmt[0].signed);
    }
  }

  // ---------------------------------------------------------------------------------------
  // Batch headers
  // ---------------------------------------------------------------------------------------

  const U32 := FieldFormat(4, false)
  const I64 := FieldFormat(8, true)
  const I32 := FieldFormat(4, true)
  const I16 := FieldFormat(2, true)
  const I8 := FieldFormat(1, true)

  /** Attributes to record count: the part that Kafka's checksum covers. */
  const CRC_FORMAT := [I16, I32, I64, I64, I64, I16, I32, I32]

  /** Batch size, base offset, type and checksum, and the part above. */
  const BODY_FORMAT := [I32, I64, I8, U32] + CRC_FORMAT

  /** The header checksum, and all it covers. */
  const HEADER_FORMAT := [U32] + BODY_FORMAT

  const HEADER_SIZE := 61

  lemma HeaderSize()
    ensures Size(HEADER_FORMAT) == HEADER_SIZE && |HEADER_FORMAT| == 13
    ensures HEADER_FORMAT[1..] == BODY_FORMAT && HEADER_FORMAT[5..] == CRC_FORMAT
  {
    SizeFour(I16, I32, I64, I64);
    SizeFour(I64, I16, I32, I32);
    SizeFour(I32, I64, I8, U32);
    assert CRC_FORMAT == [I16, I32, I64, I64] + [I64, I16, I32, I32];
    SizeConcat([I16, I32, I64, I64], [I64, I16, I32, I32]);
    SizeConcat([I32, I64, I8, U32], CRC_FORMAT);
    SizeConcat([U32], BODY_FORMAT);
  }

  lemma SizeFour(a: FieldFormat, b: FieldFormat, c: FieldFormat, d: FieldFormat)
    ensures Size([a, b, c, d]) == a.width + b.width + c.width + d.width
  {
    assert [a, b, c, d][1..] == [b, c, d] && [b, c, d][1..] == [c, d] && [c, d][1..] == [d] && [d][1..] == [];
    assert Size([d]) == d.width + Size([]);
    assert Size([c, d]) == c.width + Size([d]);
    assert Size([b, c, d]) == b.width + Size([c, d]);
  }

  lemma {:induction false} SizeConcat(f: seq<FieldFormat>, g: seq<FieldFormat>)
    ensures Size(f + g) == Size(f) + Size(g)
  {
    if f == [] {
      assert f + g == g;
    } else {
      SizeConcat(f[1..], g);
      assert (f + g)[1..] == f[1..] + g;
    }
  }

  datatype Header = Header(headerCrc: int, batchSize: int, baseOffset: int, type_: int, crc: int, attrs: int,
                           delta: int, firstTs: int, maxTs: int, producerId: int, producerEpoch: int, baseSeq: int,
                           recordCount: int)
  {
    function Fields(): (r: seq<int>)
      ensures |r| == 13
    {
      [headerCrc, batchSize, baseOffset, type_, crc, attrs, delta, firstTs, maxTs, producerId, producerEpoch, baseSeq,
        recordCount]
    }
  }

  function HeaderOf(v: seq<int>): (h: Header)
    requires |v| == 13
    ensures h.Fields() == v
  {
    Header(v[0], v[1], v[2], v[3], v[4], v[5], v[6], v[7], v[8], v[9], v[10], v[11], v[12])
  }

  /** A checksum that can be continued: of some bytes, given the checksum so far. */
  type Crc = (seq<byte>, int) -> int

  datatype Batch = Batch(header: Header, records: seq<byte>)

  predicate ChecksumsMatch(crc: Crc, b: Batch)
    requires Fits(HEADER_FORMAT, b.header.Fields())
  {
    var v := b.header.Fields();
    HeaderSize();
    assert Fits(BODY_FORMAT, v[1..]) by { assert forall i :: 0 <= i < 12 ==> BODY_FORMAT[i] == HEADER_FORMAT[i + 1]; }
    assert Fits(CRC_FORMAT, v[5..]) by { assert forall i :: 0 <= i < 8 ==> CRC_FORMAT[i] == HEADER_FORMAT[i + 5]; }
    && b.header.headerCrc == crc(Pack(BODY_FORMAT, v[1..], false), 0)
    && b.header.crc == crc(b.records, crc(Pack(CRC_FORMAT, v[5..], true), 0))
  }

  // ---------------------------------------------------------------------------------------
  // One batch from a stream
  // ---------------------------------------------------------------------------------------

  /** A batch; a quiet end; a checksum error; or an exception on an impossible size. */
  datatype Step = Got(batch: Batch, next: nat) | Stop | Corrupt | Failed

  function NextBatch(crc: Crc, data: seq<byte>, pos: nat): (r: Step)
    ensures r.Got? ==> pos < r.next <= |data|
  {
    HeaderSize();
    if pos + HEADER_SIZE > |data| then Stop
    else
      var v := Unpack(HEADER_FORMAT, data[pos..pos + HEADER_SIZE]);
      var header := HeaderOf(v);
      if forall i :: 0 <= i < |v| ==> v[i] == 0 then Stop
      else
        var size := header.batchSize - HEADER_SIZE;
        if size < 0 then Failed
        else if pos + HEADER_SIZE + size > |data| then Stop
        else
          var b := Batch(header, data[pos + HEADER_SIZE..pos + HEADER_SIZE + size]);
          if ChecksumsMatch(crc, b) then Got(b, pos + HEADER_SIZE + size) else Corrupt
  }

  datatype End = Quiet | CorruptBatch | Exception

  /** All batches from `pos` on, and how it ends. */
  function AllBatches(crc: Crc, data: seq<byte>, pos: nat): (seq<Batch>, End)
    decreases |data| - pos
  {
    match NextBatch(crc, data, pos)
    case Stop => ([], Quiet)
    case Corrupt => ([], CorruptBatch)
    case Failed => ([], Exception)
    case Got(b, next) =>
      var (bs, end) := AllBatches(crc, data, next);
      ([b] + bs, end)
  }

  /** A batch as the iterator returns it. */
  datatype Labelled = Labelled(index: nat, term: int, batch: Batch)

  function Label(bs: seq<Batch>, from: nat, term: int): seq<Labelled> {
    seq(|bs|, i requires 0 <= i < |bs| => Labelled(from + i, term, bs[i]))
  }

  class BatchIterator {
    const crc: Crc
    const term: int
    const file: Reader
    var idx: nat

    ghost predicate Valid()
      reads this, file
    {
      file.Valid()
    }

    constructor (crc: Crc, data: seq<byte>, term: int)
      ensures Valid() && fresh(file) && this.crc == crc && this.term == term
      ensures file.data == data && file.pos == 0 && idx == 0
    {
      this.crc, this.term := crc, term;
      file := new Reader(data);
      idx := 0;
    }

    /** One batch from the stream: the header, a test for zeros, the records, a test for a short
        read, and the checksums. */
    method FromStream() returns (r: Step)
      requires Valid()
      modifies file
      ensures Valid()
      ensures r == NextBatch(crc, file.data, old(file.pos))
      ensures r.Got? ==> file.pos == r.next
    {
      hide ChecksumsMatch, Unpack, Size, HeaderOf;
      HeaderSize();
      ghost var data, pos := file.data, file.pos;
      var bytes := file.ReadBytes(HEADER_SIZE);
      if bytes.None? || |bytes.value| < HEADER_SIZE {
        return Stop;
      }
      assert bytes.value == data[pos..pos + HEADER_SIZE];
      var fields := Unpack(HEADER_FORMAT, bytes.value);
      var header := HeaderOf(fields);
      var zero := AllZero(fields);
      if zero {
        return Stop;
      }
      var size := header.batchSize - HEADER_SIZE;
      var records := file.ReadBytes(size);
      if records.None? {
        return Failed;
      }
      if |records.value| < size {
        return Stop;
      }
      if |records.value| != size {
        return Failed;
      }
      assert records.value == data[pos + HEADER_SIZE..pos + HEADER_SIZE + size];
      var b := Batch(header, records.value);
      return if ChecksumsMatch(crc, b) then Got(b, file.pos) else Corrupt;
    }

    method Next() returns (r: Step, b: Option<Labelled>)
      requires Valid()
      modifies this, file
      ensures Valid()
      ensures r == NextBatch(crc, file.data, old(file.pos))
      ensures r.Got? ==> b == Some(Labelled(old(idx), term, r.batch)) && file.pos == r.next && idx == old(idx) + 1
      ensures !r.Got? ==> b.None? && idx == old(idx)
    {
      hide NextBatch;
      r := FromStream();
      b := None;
      if r.Got? {
        b := Some(Labelled(idx, term, r.batch));
        idx := idx + 1;
      }
    }

    /** The loop over a segment. */
    method Collect() returns (bs: seq<Labelled>, end: End)
      requires Valid()
      modifies this, file
      ensures Valid()
      ensures bs == Label(AllBatches(crc, file.data, old(file.pos)).0, old(idx), term)
      ensures end == AllBatches(crc, file.data, old(file.pos)).1
    {
      hide NextBatch;
      bs := [];
      ghost var data, start := file.data, old(file.pos);
      ghost var seen: seq<Batch> := [];
      assert seen + AllBatches(crc, data, start).0 == AllBatches(crc, data, start).0;
      while true
        invariant Valid() && idx == old(idx) + |seen| && bs == Label(seen, old(idx), term)
        invariant var rest := AllBatches(crc, data, file.pos);
                  AllBatches(crc, data, start) == (seen + rest.0, rest.1)
        decreases |data| - file.pos
      {
        var r, b := Next();
        match r
        case Stop => end := Quiet; assert seen + [] == seen; return;
        case Corrupt => end := CorruptBatch; assert seen + [] == seen; return;
        case Failed => end := Exception; assert seen + [] == seen; return;
        case Got(batch, next) =>
          ghost var rest := AllBatches(crc, data, next).0;
          assert seen + ([batch] + rest) == (seen + [batch]) + rest;
          assert Label(seen + [batch], old(idx), term) == Label(seen, old(idx), term) + [b.value];
          bs := bs + [b.value];
          seen := seen + [batch];
      }
    }
  }

  /** Whether all header fields are zero. */
  method AllZero(fields: seq<int>) returns (zero: bool)
    ensures zero <==> forall i :: 0 <= i < |fields| ==> fields[i] == 0
  {
    for i := 0 to |fields|
      invariant forall j :: 0 <= j < i ==> fields[j] == 0
    {
      if fields[i] != 0 {
        return false;
      }
    }
    return true;
  }

  // ---------------------------------------------------------------------------------------
  // Segments cut short
  // ---------------------------------------------------------------------------------------

  /** The fields of a header fit into their widths. */
  predicate HeaderFits(h: Header) {
    && InRange(h.headerCrc, 4, false) && InRange(h.batchSize, 4, true) && InRange(h.baseOffset, 8, true)
    && InRange(h.type_, 1, true) && InRange(h.crc, 4, false) && InRange(h.attrs, 2, true) && InRange(h.delta, 4, true)
    && InRange(h.firstTs, 8, true) && InRange(h.maxTs, 8, true) && InRange(h.producerId, 8, true)
    && InRange(h.producerEpoch, 2, true) && InRange(h.baseSeq, 4, true) && InRange(h.recordCount, 4, true)
  }

  function Int(v: int, width: nat, signed: bool, bigEndian: bool): (r: seq<byte>)
    requires InRange(v, width, signed)
    ensures |r| == width
  {
    var bs := PackInt(v, width, signed);
    if bigEndian then Backwards(bs) else bs
  }

  /** Attributes to record count. */
  function TailBytes(h: Header, bigEndian: bool): (r: seq<byte>)
    requires HeaderFits(h)
    ensures |r| == 40
  {
    (Int(h.attrs, 2, true, bigEndian) + Int(h.delta, 4, true, bigEndian) + Int(h.firstTs, 8, true, bigEndian) +
     Int(h.maxTs, 8, true, bigEndian)) +
    (Int(h.producerId, 8, true, bigEndian) + Int(h.producerEpoch, 2, true, bigEndian) +
     Int(h.baseSeq, 4, true, bigEndian) + Int(h.recordCount, 4, true, bigEndian))
  }

  /** All that the header checksum covers. */
  function BodyBytes(h: Header): (r: seq<byte>)
    requires HeaderFits(h)
    ensures |r| == 57
  {
    (Int(h.batchSize, 4, true, false) + Int(h.baseOffset, 8, true, false) + Int(h.type_, 1, true, false) +
     Int(h.crc, 4, false, false)) +
    TailBytes(h, false)
  }

  function HeaderBytes(h: Header): (r: seq<byte>)
    requires HeaderFits(h)
    ensures |r| == HEADER_SIZE
  {
    Int(h.headerCrc, 4, false, false) + BodyBytes(h)
  }

  /** Kafka's checksum: of the end of the header, highest bytes first, continued over the records. */
  function RecordsCrc(crc: Crc, h: Header, records: seq<byte>): int
    requires HeaderFits(h)
  {
    crc(records, crc(TailBytes(h, true), 0))
  }

  function HeaderCrc(crc: Crc, h: Header): int
    requires HeaderFits(h)
  {
    crc(BodyBytes(h), 0)
  }

  /** A batch as a writer leaves it: its size and both checksums are right. */
  ghost predicate WellFormed(crc: Crc, b: Batch) {
    && HeaderFits(b.header) && b.header.batchSize == HEADER_SIZE + |b.records|
    && b.header.crc == RecordsCrc(crc, b.header, b.records) && b.header.headerCrc == HeaderCrc(crc, b.header)
  }

  ghost predicate AllWellFormed(crc: Crc, bs: seq<Batch>) {
    forall i :: 0 <= i < |bs| ==> WellFormed(crc, bs[i])
  }

  function EncodeBatch(b: Batch): (r: seq<byte>)
    requires HeaderFits(b.header)
    ensures |r| == HEADER_SIZE + |b.records|
  {
    HeaderBytes(b.header) + b.records
  }

  lemma FitsExactly(h: Header)
    ensures HeaderFits(h) <==> Fits(HEADER_FORMAT, h.Fields())
  {
    hide InRange;
    HeaderSize();
    var v, f := h.Fields(), HEADER_FORMAT;
    assert f[0] == U32 && f[1] == I32 && f[2] == I64 && f[3] == I8 && f[4] == U32;
    assert f[5] == I16 && f[6] == I32 && f[7] == I64 && f[8] == I64 && f[9] == I64;
    assert f[10] == I16 && f[11] == I32 && f[12] == I32;
    if Fits(f, v) {
      assert InRange(v[0], f[0].width, f[0].signed) && InRange(v[1], f[1].width, f[1].signed);
      assert InRange(v[2], f[2].width, f[2].signed) && InRange(v[3], f[3].width, f[3].signed);
      assert InRange(v[4], f[4].width, f[4].signed) && InRange(v[5], f[5].width, f[5].signed);
      assert InRange(v[6], f[6].width, f[6].signed) && InRange(v[7], f[7].width, f[7].signed);
      assert InRange(v[8], f[8].width, f[8].signed) && InRange(v[9], f[9].width, f[9].signed);
      assert InRange(v[10], f[10].width, f[10].signed) && InRange(v[11], f[11].width, f[11].signed);
      assert InRange(v[12], f[12].width, f[12].signed);
    }
  }

  lemma PackFour(a: FieldFormat, b: FieldFormat, c: FieldFormat, d: FieldFormat, v: seq<int>, bigEndian: bool)
    requires |v| == 4 && InRange(v[0], a.width, a.signed) && InRange(v[1], b.width, b.signed)
    requires InRange(v[2], c.width, c.signed) && InRange(v[3], d.width, d.signed)
    ensures Fits([a, b, c, d], v)
    ensures Pack([a, b, c, d], v, bigEndian) ==
            Int(v[0], a.width, a.signed, bigEndian) + Int(v[1], b.width, b.signed, bigEndian) +
            Int(v[2], c.width, c.signed, bigEndian) + Int(v[3], d.width, d.signed, bigEndian)
  {
    hide InRange, PackInt, Backwards;
    assert [a, b, c, d][1..] == [b, c, d] && [b, c, d][1..] == [c, d] && [c, d][1..] == [d] && [d][1..] == [];
    var v1, v2, v3 := v[1..], v[2..], v[3..];
    assert v1[1..] == v2 && v2[1..] == v3 && v3[1..] == [];
    assert Pack([d], v3, bigEndian) == Int(v[3], d.width, d.signed, bigEndian) + [];
    assert Pack([c, d], v2, bigEndian) == Int(v[2], c.width, c.signed, bigEndian) + Pack([d], v3, bigEndian);
    assert Pack([b, c, d], v1, bigEndian) == Int(v[1], b.width, b.signed, bigEndian) + Pack([c, d], v2, bigEndian);
  }

  lemma {:induction false} PackConcat(f: seq<FieldFormat>, v: seq<int>, g: seq<FieldFormat>, w: seq<int>,
                                      bigEndian: bool)
    requires Fits(f, v) && Fits(g, w)
    ensures Fits(f + g, v + w) && Pack(f + g, v + w, bigEndian) == Pack(f, v, bigEndian) + Pack(g, w, bigEndian)
  {
    hide InRange, PackInt, Backwards;
    if f == [] {
      assert f + g == g && v + w == w;
    } else {
      PackConcat(f[1..], v[1..], g, w, bigEndian);
      assert (f + g)[1..] == f[1..] + g && (v + w)[1..] == v[1..] + w;
    }
  }

  /** The packed fields of a header are its bytes, field by field. */
  lemma TailIsPacked(h: Header, bigEndian: bool)
    requires HeaderFits(h)
    ensures Fits(CRC_FORMAT, h.Fields()[5..]) && Pack(CRC_FORMAT, h.Fields()[5..], bigEndian) == TailBytes(h, bigEndian)
  {
    hide InRange, Pack, Int, Fits;
    var a, b := [h.attrs, h.delta, h.firstTs, h.maxTs], [h.producerId, h.producerEpoch, h.baseSeq, h.recordCount];
    PackFour(I16, I32, I64, I64, a, bigEndian);
    PackFour(I64, I16, I32, I32, b, bigEndian);
    PackConcat([I16, I32, I64, I64], a, [I64, I16, I32, I32], b, bigEndian);
    assert CRC_FORMAT == [I16, I32, I64, I64] + [I64, I16, I32, I32];
    assert h.Fields()[5..] == a + b;
  }

  lemma BodyIsPacked(h: Header)
    requires HeaderFits(h)
    ensures Fits(BODY_FORMAT, h.Fields()[1..]) && Pack(BODY_FORMAT, h.Fields()[1..], false) == BodyBytes(h)
  {
    hide InRange, Pack, Int, Fits, TailBytes;
    var a := [h.batchSize, h.baseOffset, h.type_, h.crc];
    PackFour(I32, I64, I8, U32, a, false);
    TailIsPacked(h, false);
    PackConcat([I32, I64, I8, U32], a, CRC_FORMAT, h.Fields()[5..], false);
    assert h.Fields()[1..] == a + h.Fields()[5..];
  }

  lemma HeaderIsPacked(h: Header)
    requires HeaderFits(h)
    ensures Fits(HEADER_FORMAT, h.Fields()) && Pack(HEADER_FORMAT, h.Fields(), false) == HeaderBytes(h)
  {
    FitsExactly(h);
    BodyIsPacked(h);
    HeaderSize();
    hide InRange, BodyBytes, Size;
    assert HEADER_FORMAT[0] == U32;
  }

  /** The checksums that are compared are the two of the format. */
  lemma ChecksumsMatchExactly(crc: Crc, b: Batch)
    requires HeaderFits(b.header)
    ensures Fits(HEADER_FORMAT, b.header.Fields())
    ensures ChecksumsMatch(crc, b) <==>
            b.header.headerCrc == HeaderCrc(crc, b.header) && b.header.crc == RecordsCrc(crc, b.header, b.records)
  {
    FitsExactly(b.header);
    BodyIsPacked(b.header);
    TailIsPacked(b.header, true);
    hide InRange, BodyBytes, TailBytes, Pack, Fits;
  }

  /** What a writer does: fill in the size and the checksums. */
  function Seal(crc: Crc, h: Header, records: seq<byte>): Batch
    requires HeaderFits(h.(batchSize := HEADER_SIZE + |records|))
    requires var sized := h.(batchSize := HEADER_SIZE + |records|);
             InRange(RecordsCrc(crc, sized, records), 4, false)
  {
    var sized := h.(batchSize := HEADER_SIZE + |records|);
    var summed := sized.(crc := RecordsCrc(crc, sized, records));
    Batch(summed.(headerCrc := HeaderCrc(crc, summed)), records)
  }

  lemma SealedIsWellFormed(crc: Crc, h: Header, records: seq<byte>)
    requires HeaderFits(h.(batchSize := HEADER_SIZE + |records|))
    requires var sized := h.(batchSize := HEADER_SIZE + |records|);
             InRange(RecordsCrc(crc, sized, records), 4, false)
               && InRange(Seal(crc, h, records).header.headerCrc, 4, false)
    ensures WellFormed(crc, Seal(crc, h, records)) && Seal(crc, h, records).records == records
  {
    hide InRange, Int;
  }

  function EncodeSegment(crc: Crc, bs: seq<Batch>): seq<byte>
    requires AllWellFormed(crc, bs)
  {
    if bs == [] then [] else EncodeBatch(bs[0]) + EncodeSegment(crc, bs[1..])
  }

  /** At an encoded batch of which at least the first `n` bytes are there. */
  lemma HeaderAt(data: seq<byte>, pos: nat, b: Batch, n: nat)
    requires HeaderFits(b.header) && HEADER_SIZE <= n <= |EncodeBatch(b)| && Holds(data, pos, EncodeBatch(b)[..n])
    ensures Unpack(HEADER_FORMAT, (HeaderSize(); data[pos..pos + HEADER_SIZE])) == b.header.Fields()
    ensures HeaderOf(b.header.Fields()) == b.header
  {
    HeaderSize();
    HeaderIsPacked(b.header);
    var packed := HeaderBytes(b.header);
    hide HeaderFits, HeaderBytes;
    assert data[pos..pos + HEADER_SIZE] == EncodeBatch(b)[..n][..HEADER_SIZE] == packed by {
      assert data[pos..pos + HEADER_SIZE] == data[pos..pos + n][..HEADER_SIZE];
    }
    UnpackPacked(HEADER_FORMAT, b.header.Fields());
  }

  /** What a complete batch with a plausible size is taken for. */
  lemma CompleteBatch(crc: Crc, data: seq<byte>, pos: nat, b: Batch)
    requires HeaderFits(b.header) && b.header.batchSize == HEADER_SIZE + |b.records| && Holds(data, pos, EncodeBatch(b))
    ensures Fits(HEADER_FORMAT, b.header.Fields())
    ensures NextBatch(crc, data, pos) == if ChecksumsMatch(crc, b) then Got(b, pos + |EncodeBatch(b)|) else Corrupt
  {
    var e := EncodeBatch(b);
    assert e[..|e|] == e;
    HeaderAt(data, pos, b, |e|);
    FitsExactly(b.header);
    HeaderSize();
    hide HeaderFits, HeaderBytes, ChecksumsMatch;
    assert b.header.Fields()[1] != 0;
    HoldsParts(data, pos, HeaderBytes(b.header), b.records);
  }

  lemma WholeBatchIsRead(crc: Crc, data: seq<byte>, pos: nat, b: Batch)
    requires WellFormed(crc, b) && Holds(data, pos, EncodeBatch(b))
    ensures NextBatch(crc, data, pos) == Got(b, pos + |EncodeBatch(b)|)
  {
    CompleteBatch(crc, data, pos, b);
    ChecksumsMatchExactly(crc, b);
  }

  /** A complete batch in which one of the checksums is wrong is reported. */
  lemma DamagedBatchIsCorrupt(crc: Crc, data: seq<byte>, pos: nat, b: Batch)
    requires HeaderFits(b.header) && b.header.batchSize == HEADER_SIZE + |b.records| && Holds(data, pos, EncodeBatch(b))
    requires b.header.headerCrc != HeaderCrc(crc, b.header) || b.header.crc != RecordsCrc(crc, b.header, b.records)
    ensures NextBatch(crc, data, pos) == Corrupt
  {
    CompleteBatch(crc, data, pos, b);
    ChecksumsMatchExactly(crc, b);
  }

  /** A header with a size below its own, unless all of it is zero, is an exception. */
  lemma ImpossibleSizeFails(crc: Crc, data: seq<byte>, pos: nat, h: Header)
    requires HeaderFits(h) && h.batchSize < HEADER_SIZE && Holds(data, pos, HeaderBytes(h))
    requires exists i :: 0 <= i < 13 && h.Fields()[i] != 0
    ensures NextBatch(crc, data, pos) == Failed
  {
    var b := Batch(h, []);
    assert EncodeBatch(b)[..HEADER_SIZE] == HeaderBytes(h);
    HeaderAt(data, pos, b, HEADER_SIZE);
    HeaderSize();
  }

  /** A strict part of a batch at the end of the data ends the iteration. */
  lemma PartialBatchStops(crc: Crc, data: seq<byte>, pos: nat, b: Batch, n: nat)
    requires WellFormed(crc, b) && n < |EncodeBatch(b)| && |data| == pos + n && Holds(data, pos, EncodeBatch(b)[..n])
    ensures NextBatch(crc, data, pos).Stop?
  {
    if n >= HEADER_SIZE {
      HeaderAt(data, pos, b, n);
      HeaderSize();
    }
  }

  lemma ZeroFillStops(crc: Crc, data: seq<byte>, pos: nat, n: nat)
    requires |data| == pos + n && Holds(data, pos, Zeros(n))
    ensures NextBatch(crc, data, pos).Stop?
  {
    HeaderSize();
    if n >= HEADER_SIZE {
      assert data[pos..pos + HEADER_SIZE] == Zeros(HEADER_SIZE) by {
        assert data[pos..pos + HEADER_SIZE] == data[pos..pos + n][..HEADER_SIZE];
      }
      UnpackZeros(HEADER_FORMAT);
    }
  }

  /** Whole batches are returned, and then it goes on behind them. */
  lemma {:induction false} BatchesThenRest(crc: Crc, data: seq<byte>, pos: nat, bs: seq<Batch>, tail: seq<byte>)
    requires AllWellFormed(crc, bs) && Holds(data, pos, EncodeSegment(crc, bs) + tail)
    ensures var rest := AllBatches(crc, data, pos + |EncodeSegment(crc, bs)|);
            AllBatches(crc, data, pos) == (bs + rest.0, rest.1)
    decreases |bs|
  {
    hide NextBatch, EncodeBatch, Holds, RecordsCrc, HeaderCrc, HeaderFits;
    if bs == [] {
      assert [] + AllBatches(crc, data, pos).0 == AllBatches(crc, data, pos).0;
    } else {
      var e, rest := EncodeBatch(bs[0]), EncodeSegment(crc, bs[1..]);
      assert EncodeSegment(crc, bs) == e + rest;
      assert EncodeSegment(crc, bs) + tail == e + (rest + tail);
      HoldsParts(data, pos, e, rest + tail);
      WholeBatchIsRead(crc, data, pos, bs[0]);
      BatchesThenRest(crc, data, pos + |e|, bs[1..], tail);
      var more := AllBatches(crc, data, pos + |EncodeSegment(crc, bs)|).0;
      assert [bs[0]] + (bs[1..] + more) == bs + more;
    }
  }

  /** Whole batches followed by a tail at which iteration stops. */
  lemma BatchesThenStop(crc: Crc, data: seq<byte>, pos: nat, bs: seq<Batch>, tail: seq<byte>)
    requires AllWellFormed(crc, bs) && Holds(data, pos, EncodeSegment(crc, bs) + tail)
    requires NextBatch(crc, data, pos + |EncodeSegment(crc, bs)|).Stop?
    ensures AllBatches(crc, data, pos) == (bs, Quiet)
  {
    hide NextBatch, EncodeSegment, WellFormed;
    BatchesThenRest(crc, data, pos, bs, tail);
    assert bs + [] == bs;
  }

  /** A damaged batch, anywhere in a segment, ends the iteration with an error after the batches
      before it, whatever follows. */
  lemma DamagedLogIsReported(crc: Crc, bs: seq<Batch>, b: Batch, tail: seq<byte>)
    requires AllWellFormed(crc, bs) && HeaderFits(b.header) && b.header.batchSize == HEADER_SIZE + |b.records|
    requires b.header.headerCrc != HeaderCrc(crc, b.header) || b.header.crc != RecordsCrc(crc, b.header, b.records)
    ensures AllBatches(crc, EncodeSegment(crc, bs) + (EncodeBatch(b) + tail), 0) == (bs, CorruptBatch)
  {
    hide NextBatch, EncodeSegment, EncodeBatch, WellFormed, Holds, HeaderCrc, RecordsCrc, HeaderFits;
    var done, e := EncodeSegment(crc, bs), EncodeBatch(b);
    var data := done + (e + tail);
    HoldsItself(data);
    HoldsParts(data, 0, done, e + tail);
    HoldsParts(data, |done|, e, tail);
    DamagedBatchIsCorrupt(crc, data, |done|, b);
    BatchesThenRest(crc, data, 0, bs, e + tail);
    assert bs + [] == bs;
  }

  /** How many batches end at or before byte `k`. */
  function Complete(crc: Crc, bs: seq<Batch>, k: nat): (n: nat)
    requires AllWellFormed(crc, bs)
    ensures n <= |bs|
  {
    if bs == [] || |EncodeBatch(bs[0])| > k then 0 else 1 + Complete(crc, bs[1..], k - |EncodeBatch(bs[0])|)
  }

  /** Batch `i` is complete exactly when the segment up to and including it fits into `k` bytes. */
  lemma {:induction false} CompleteMeans(crc: Crc, bs: seq<Batch>, k: nat, i: nat)
    requires AllWellFormed(crc, bs) && i < |bs|
    ensures i < Complete(crc, bs, k) <==> |EncodeSegment(crc, bs[..i + 1])| <= k
  {
    hide EncodeBatch, RecordsCrc, HeaderCrc;
    var e := EncodeBatch(bs[0]);
    SegmentStarts(crc, bs, i);
    if |e| <= k && i > 0 {
      CompleteMeans(crc, bs[1..], k - |e|, i - 1);
    }
  }

  lemma SegmentStarts(crc: Crc, bs: seq<Batch>, i: nat)
    requires AllWellFormed(crc, bs) && i < |bs|
    ensures EncodeSegment(crc, bs[..i + 1]) == EncodeBatch(bs[0]) + EncodeSegment(crc, bs[1..][..i])
  {
    hide EncodeBatch, RecordsCrc, HeaderCrc;
    assert bs[..i + 1][1..] == bs[1..][..i];
  }

  /** The first `k` bytes of a segment: complete batches and a strict part of the next one. */
  lemma {:induction false} CutSegment(crc: Crc, bs: seq<Batch>, k: nat) returns (tail: seq<byte>)
    requires AllWellFormed(crc, bs) && k <= |EncodeSegment(crc, bs)|
    ensures var n := Complete(crc, bs, k);
            EncodeSegment(crc, bs)[..k] == EncodeSegment(crc, bs[..n]) + tail &&
            (if n == |bs| then tail == [] else |tail| < |EncodeBatch(bs[n])| && tail == EncodeBatch(bs[n])[..|tail|])
  {
    hide EncodeBatch, RecordsCrc, HeaderCrc;
    if bs == [] {
      tail := [];
    } else {
      var e, rest := EncodeBatch(bs[0]), EncodeSegment(crc, bs[1..]);
      if |e| > k {
        tail := e[..k];
      } else {
        tail := CutSegment(crc, bs[1..], k - |e|);
        var n := Complete(crc, bs, k);
        assert bs[..n][1..] == bs[1..][..n - 1];
        assert EncodeSegment(crc, bs[..n]) == e + EncodeSegment(crc, bs[1..][..n - 1]);
        assert (e + rest)[..k] == e + rest[..k - |e|];
      }
    }
  }

  /** A log cut off at any byte yields exactly the batches that are completely there. */
  lemma CutLogYieldsCompleteBatches(crc: Crc, bs: seq<Batch>, k: nat)
    requires AllWellFormed(crc, bs) && k <= |EncodeSegment(crc, bs)|
    ensures AllBatches(crc, EncodeSegment(crc, bs)[..k], 0) == (bs[..Complete(crc, bs, k)], Quiet)
  {
    hide NextBatch, EncodeBatch, AllBatches, EncodeSegment, Holds, WellFormed, Complete;
    var data := EncodeSegment(crc, bs)[..k];
    var n := Complete(crc, bs, k);
    var tail := CutSegment(crc, bs, k);
    var done := EncodeSegment(crc, bs[..n]);
    HoldsItself(data);
    HoldsParts(data, 0, done, tail);
    if n < |bs| {
      PartialBatchStops(crc, data, |done|, bs[n], |tail|);
    } else {
      assert Zeros(0) == [];
      ZeroFillStops(crc, data, |done|, 0);
    }
    BatchesThenStop(crc, data, 0, bs[..n], tail);
  }

  /** A log followed by any amount of zero fill yields exactly its batches. */
  lemma ZeroFilledLogYieldsAllBatches(crc: Crc, bs: seq<Batch>, n: nat)
    requires AllWellFormed(crc, bs)
    ensures AllBatches(crc, EncodeSegment(crc, bs) + Zeros(n), 0) == (bs, Quiet)
  {
    hide NextBatch, EncodeBatch, AllBatches, EncodeSegment;
    var done := EncodeSegment(crc, bs);
    var data := done + Zeros(n);
    assert data[0..|data|] == data;
    HoldsParts(data, 0, done, Zeros(n));
    ZeroFillStops(crc, data, |done|, n);
    BatchesThenStop(crc, data, 0, bs, Zeros(n));
  }
}
