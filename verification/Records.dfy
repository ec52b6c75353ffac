/**
  * The viewer's stream reader and its iterator over the records of a batch.
  */
module Records {
  import opened Wrappers
  import opened Varint

  // ---------------------------------------------------------------------------------------
  // What the reads return, as functions of the data and the position
  // ---------------------------------------------------------------------------------------

  function GetVarint(data: seq<byte>, pos: nat): (r: Option<(int, nat)>)
    ensures r.Some? ==> pos < r.value.1 <= |data|
  {
    match GetUnsigned(data, pos)
    case None => None
    case Some((n, next)) => Some((DecodeZigZag(n), next))
  }

  /** A fixed-width integer; unpacking fails on a short read. */
  function GetInt(data: seq<byte>, pos: nat, width: nat, signed: bool): (r: Option<(int, nat)>)
    ensures r.Some? ==> r.value.1 == pos + width <= |data|
  {
    if pos + width <= |data| then Some((UnpackInt(data[pos..pos + width], signed), pos + width)) else None
  }

  /** Up to `n` bytes: fewer at the end of the data, all the rest for -1, an error below that. */
  function GetBytes(data: seq<byte>, pos: nat, n: int): (r: Option<(seq<byte>, nat)>)
    requires pos <= |data|
    ensures r.Some? ==> pos <= r.value.1 <= |data|
  {
    if n < -1 then None
    else
      var next := if n == -1 || pos + n > |data| then |data| else pos + n;
      Some((data[pos..next], next))
  }

  datatype RecordHeader = RecordHeader(key: seq<byte>, value: seq<byte>)

  datatype Record = Record(length: int, attrs: int, timestampDelta: int, offsetDelta: int,
                           key: Option<seq<byte>>, value: Option<seq<byte>>, headers: seq<RecordHeader>)

  /** A missing key or value is read like an empty one. */
  function OrEmpty(b: Option<seq<byte>>): seq<byte> {
    if b.Some? then b.value else []
  }

  /** A key or a value: a length, and that many bytes if it is positive. */
  function GetBlob(data: seq<byte>, pos: nat): (r: Option<(Option<seq<byte>>, nat)>)
    ensures r.Some? ==> pos <= r.value.1 <= |data|
  {
    match GetVarint(data, pos)
    case None => None
    case Some((n, next)) =>
      if n <= 0 then Some((None, next))
      else
        match GetBytes(data, next, n)
        case None => None
        case Some((bs, end)) => Some((Some(bs), end))
  }

  /** Half of a record header: a length and that many bytes. */
  function GetSized(data: seq<byte>, pos: nat): (r: Option<(seq<byte>, nat)>)
    ensures r.Some? ==> pos <= r.value.1 <= |data|
  {
    match GetVarint(data, pos)
    case None => None
    case Some((n, next)) => GetBytes(data, next, n)
  }

  function GetHeader(data: seq<byte>, pos: nat): (r: Option<(RecordHeader, nat)>)
    ensures r.Some? ==> pos <= r.value.1 <= |data|
  {
    match GetSized(data, pos)
    case None => None
    case Some((key, p)) =>
      match GetSized(data, p)
      case None => None
      case Some((value, end)) => Some((RecordHeader(key, value), end))
  }

  function GetHeaders(data: seq<byte>, pos: nat, n: int): (r: Option<(seq<RecordHeader>, nat)>)
    requires pos <= |data|
    ensures r.Some? ==> pos <= r.value.1 <= |data| && |r.value.0| == if n > 0 then n else 0
    ensures n <= 0 ==> r == Some(([], pos))
    decreases if n > 0 then n else 0
  {
    if n <= 0 then Some(([], pos))
    else
      match GetHeaders(data, pos, n - 1)
      case None => None
      case Some((hs, p)) =>
        match GetHeader(data, p)
        case None => None
        case Some((h, end)) => Some((hs + [h], end))
  }

  function GetRecord(data: seq<byte>, pos: nat): (r: Option<(Record, nat)>)
    ensures r.Some? ==> pos < r.value.1 <= |data|
  {
    match GetVarint(data, pos)
    case None => None
    case Some((length, p1)) =>
    match GetInt(data, p1, 1, true)
    case None => None
    case Some((attrs, p2)) =>
    match GetVarint(data, p2)
    case None => None
    case Some((timestampDelta, p3)) =>
    match GetVarint(data, p3)
    case None => None
    case Some((offsetDelta, p4)) =>
    match GetBlob(data, p4)
    case None => None
    case Some((key, p5)) =>
    match GetBlob(data, p5)
    case None => None
    case Some((value, p6)) =>
    match GetVarint(data, p6)
    case None => None
    case Some((n, p7)) =>
    match GetHeaders(data, p7, n)
    case None => None
    case Some((headers, end)) => Some((Record(length, attrs, timestampDelta, offsetDelta, key, value, headers), end))
  }

  /** Iterating over `n` records. */
  function GetRecords(data: seq<byte>, pos: nat, n: nat): (r: Option<(seq<Record>, nat)>)
    requires pos <= |data|
    ensures r.Some? ==> pos <= r.value.1 <= |data| && |r.value.0| == n
  {
    if n == 0 then Some(([], pos))
    else
      match GetRecords(data, pos, n - 1)
      case None => None
      case Some((rs, p)) =>
        match GetRecord(data, p)
        case None => None
        case Some((r, end)) => Some((rs + [r], end))
  }

  // ---------------------------------------------------------------------------------------
  // The reads themselves
  // ---------------------------------------------------------------------------------------

  /** One continuation byte, with `p` the weight of its lowest bit. */
  lemma SevenBits(data: seq<byte>, pos: nat, result: nat, p: nat)
    requires pos < |data| && data[pos] >= 128 && result < p
    ensures result + (data[pos] % 128) * p < 128 * p
    ensures match GetUnsigned(data, pos + 1)
            case None => GetUnsigned(data, pos).None?
            case Some((n, next)) =>
              GetUnsigned(data, pos).Some? && GetUnsigned(data, pos).value.1 == next &&
              result + GetUnsigned(data, pos).value.0 * p == result + (data[pos] % 128) * p + n * (128 * p)
  {
    var low := data[pos] % 128;
    match GetUnsigned(data, pos + 1)
    case None => Shifted(low, 0, p);
    case Some((n, next)) => Shifted(low, n, p);
  }

  lemma Shifted(low: nat, n: nat, p: nat)
    requires low < 128
    ensures low * p <= 127 * p
    ensures (low + 128 * n) * p == low * p + n * (128 * p)
  {
    assert (127 - low) * p >= 0;
    assert (128 * n) * p == n * (128 * p);
  }

  /** The number that starts at `start` is what was collected so far and `p` times the number that
      goes on at `pos`. */
  ghost predicate Collected(data: seq<byte>, start: nat, pos: nat, result: int, p: nat) {
    && 0 <= result < p
    && match GetUnsigned(data, pos)
       case None => GetUnsigned(data, start).None?
       case Some((n, next)) => GetUnsigned(data, start) == Some((result + n * p, next))
  }

  lemma CollectMore(data: seq<byte>, start: nat, pos: nat, result: int, p: nat)
    requires Collected(data, start, pos, result, p) && pos < |data| && data[pos] >= 128
    ensures Collected(data, start, pos + 1, result + (data[pos] % 128) * p, 128 * p)
  {
    SevenBits(data, pos, result, p);
  }

  lemma CollectLast(data: seq<byte>, start: nat, pos: nat, result: int, p: nat)
    requires Collected(data, start, pos, result, p) && pos < |data| && data[pos] < 128
    ensures GetUnsigned(data, start) == Some((result + data[pos] * p, pos + 1))
  {
  }

  lemma CollectEnd(data: seq<byte>, start: nat, pos: nat, result: int, p: nat)
    requires Collected(data, start, pos, result, p) && pos >= |data|
    ensures GetUnsigned(data, start).None?
  {
  }

  class Reader {
    const data: seq<byte>
    var pos: nat

    ghost predicate Valid()
      reads this
    {
      pos <= |data|
    }

    constructor (data: seq<byte>)
      ensures this.data == data && pos == 0 && Valid()
    {
      this.data, pos := data, 0;
    }

    /** The loop over the bytes of a number; no result stands for the exception at the end of
        the data. */
    method ReadVarint() returns (r: Option<int>)
      requires Valid()
      modifies this
      ensures Valid()
      ensures match GetVarint(data, old(pos))
              case None => r.None?
              case Some((n, next)) => r == Some(n) && pos == next
    {
      var shift, result := 0, 0;
      assert Collected(data, pos, pos, 0, Pow2(0));
      hide Collected, GetUnsigned, Pow2, DecodeZigZag;
      while pos < |data|
        invariant Valid() && Collected(data, old(pos), pos, result, Pow2(shift))
        decreases |data| - pos
      {
        var i := data[pos];
        pos := pos + 1;
        Pow2Add7(shift);
        if i >= 128 {
          // The bits of `result` lie below the shifted ones, so the bitwise or is a sum.
          CollectMore(data, old(pos), pos - 1, result, Pow2(shift));
          result := result + (i % 128) * Pow2(shift);
        } else {
          CollectLast(data, old(pos), pos - 1, result, Pow2(shift));
          result := result + i * Pow2(shift);
          return Some(DecodeZigZag(result));
        }
        shift := shift + 7;
      }
      CollectEnd(data, old(pos), pos, result, Pow2(shift));
      return None;
    }

    method ReadInt8() returns (r: Option<int>)
      requires Valid()
      modifies this
      ensures Valid()
      ensures match GetInt(data, old(pos), 1, true)
              case None => r.None?
              case Some((n, next)) => r == Some(n) && pos == next
    {
      var bs := ReadBytes(1);
      if bs.None? || |bs.value| != 1 {
        return None;
      }
      return Some(UnpackInt(bs.value, true));
    }

    method ReadBytes(length: int) returns (r: Option<seq<byte>>)
      requires Valid()
      modifies this
      ensures Valid()
      ensures match GetBytes(data, old(pos), length)
              case None => r.None?
              case Some((bs, next)) => r == Some(bs) && pos == next
    {
      if length < -1 {
        return None;
      }
      var next := if length == -1 || pos + length > |data| then |data| else pos + length;
      r := Some(data[pos..next]);
      pos := next;
    }
  }

  class RecordIter {
    const rdr: Reader
    var recordCount: int

    ghost predicate Valid()
      reads this, rdr
    {
      rdr.Valid()
    }

    constructor (recordCount: int, records: seq<byte>)
      ensures Valid() && fresh(rdr) && rdr.data == records && rdr.pos == 0 && this.recordCount == recordCount
    {
      this.recordCount := recordCount;
      rdr := new Reader(records);
    }

    method ParseSized() returns (r: Option<seq<byte>>)
      requires Valid()
      modifies rdr
      ensures Valid()
      ensures match GetSized(rdr.data, old(rdr.pos))
              case None => r.None?
              case Some((bs, next)) => r == Some(bs) && rdr.pos == next
    {
      var n := rdr.ReadVarint();
      if n.None? { return None; }
      r := rdr.ReadBytes(n.value);
    }

    method ParseHeader() returns (r: Option<RecordHeader>)
      requires Valid()
      modifies rdr
      ensures Valid()
      ensures match GetHeader(rdr.data, old(rdr.pos))
              case None => r.None?
              case Some((h, next)) => r == Some(h) && rdr.pos == next
    {
      var key := ParseSized();
      if key.None? { return None; }
      var value := ParseSized();
      if value.None? { return None; }
      return Some(RecordHeader(key.value, value.value));
    }

    method ParseBlob() returns (r: Option<Option<seq<byte>>>)
      requires Valid()
      modifies rdr
      ensures Valid()
      ensures match GetBlob(rdr.data, old(rdr.pos))
              case None => r.None?
              case Some((b, next)) => r == Some(b) && rdr.pos == next
    {
      var n := rdr.ReadVarint();
      if n.None? { return None; }
      if n.value > 0 {
        var bs := rdr.ReadBytes(n.value);
        if bs.None? { return None; }
        return Some(Some(bs.value));
      }
      return Some(None);
    }

    method ParseHeaders(n: int) returns (r: Option<seq<RecordHeader>>)
      requires Valid()
      modifies rdr
      ensures Valid()
      ensures match GetHeaders(rdr.data, old(rdr.pos), n)
              case None => r.None?
              case Some((hs, next)) => r == Some(hs) && rdr.pos == next
    {
      hide GetHeader;
      var headers: seq<RecordHeader> := [];
      var i := 0;
      while i < n
        invariant Valid() && 0 <= i && (i <= n || i == 0)
        invariant GetHeaders(rdr.data, old(rdr.pos), i) == Some((headers, rdr.pos))
      {
        var h := ParseHeader();
        if h.None? {
          NoHeader(rdr.data, old(rdr.pos), i + 1, n);
          return None;
        }
        headers := headers + [h.value];
        i := i + 1;
      }
      return Some(headers);
    }

    /** The next record; `done` at the end, and no record for an exception. */
    method Next() returns (done: bool, r: Option<Record>)
      requires Valid()
      modifies this, rdr
      ensures Valid()
      ensures done <==> old(recordCount) == 0
      ensures done ==> recordCount == 0 && rdr.pos == old(rdr.pos)
      ensures !done ==> recordCount == old(recordCount) - 1
      ensures !done ==> match GetRecord(rdr.data, old(rdr.pos))
                        case None => r.None?
                        case Some((rec, next)) => r == Some(rec) && rdr.pos == next
    {
      if recordCount == 0 {
        return true, None;
      }
      done, r := false, None;
      recordCount := recordCount - 1;
      var length := rdr.ReadVarint();
      if length.None? { return; }
      var attrs := rdr.ReadInt8();
      if attrs.None? { return; }
      var timestampDelta := rdr.ReadVarint();
      if timestampDelta.None? { return; }
      var offsetDelta := rdr.ReadVarint();
      if offsetDelta.None? { return; }
      var key := ParseBlob();
      if key.None? { return; }
      var value := ParseBlob();
      if value.None? { return; }
      var n := rdr.ReadVarint();
      if n.None? { return; }
      var headers := ParseHeaders(n.value);
      if headers.None? { return; }
      r := Some(Record(length.value, attrs.value, timestampDelta.value, offsetDelta.value, key.value, value.value,
        headers.value));
    }

    /** The whole iteration.  A negative count never reaches zero, so it ends in an exception. */
    method Collect() returns (r: Option<seq<Record>>)
      requires Valid()
      modifies this, rdr
      ensures Valid()
      ensures old(recordCount) < 0 ==> r.None?
      ensures old(recordCount) >= 0 ==>
                match GetRecords(rdr.data, old(rdr.pos), old(recordCount))
                case None => r.None?
                case Some((rs, next)) => r == Some(rs) && rdr.pos == next
    {
      hide GetRecord;
      var records: seq<Record> := [];
      ghost var n := 0;
      while true
        invariant Valid() && n >= 0 && recordCount == old(recordCount) - n
        invariant old(recordCount) >= 0 ==> n <= old(recordCount)
        invariant GetRecords(rdr.data, old(rdr.pos), n) == Some((records, rdr.pos))
        decreases |rdr.data| - rdr.pos
      {
        var done, rec := Next();
        if done {
          return Some(records);
        }
        n := n + 1;
        if rec.None? {
          if old(recordCount) >= 0 { NoRecord(rdr.data, old(rdr.pos), n, old(recordCount)); }
          return None;
        }
        records := records + [rec.value];
      }
    }
  }

  lemma {:induction false} NoHeader(data: seq<byte>, pos: nat, i: int, n: int)
    requires pos <= |data| && i <= n && GetHeaders(data, pos, i).None?
    ensures GetHeaders(data, pos, n).None?
    decreases n - i
  {
    if i < n { NoHeader(data, pos, i + 1, n); }
  }

  lemma {:induction false} NoRecord(data: seq<byte>, pos: nat, i: nat, n: nat)
    requires pos <= |data| && i <= n && GetRecords(data, pos, i).None?
    ensures GetRecords(data, pos, n).None?
    decreases n - i
  {
    if i < n { NoRecord(data, pos, i + 1, n); }
  }
}
