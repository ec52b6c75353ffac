/**
  * Zig-zag numbers, variable-length integers and fixed-width integers, as the offline log
  * viewer reads them.
  */
module Varint {
  import opened Wrappers

  type byte = x: int | 0 <= x < 256

  // ---------------------------------------------------------------------------------------
  // Zig-zag
  // ---------------------------------------------------------------------------------------

  /** `(v >> 1) ^ (~(v & 1) + 1)` on unbounded integers: the exclusive or with all ones is the
      complement. */
  function DecodeZigZag(v: nat): int {
    if v % 2 == 0 then v / 2 else -(v / 2) - 1
  }

  function EncodeZigZag(i: int): nat {
    if i >= 0 then 2 * i else -2 * i - 1
  }

  /** A bijection between naturals and integers. */
  lemma ZigZagBijection(v: nat, i: int)
    ensures EncodeZigZag(DecodeZigZag(v)) == v
    ensures DecodeZigZag(EncodeZigZag(i)) == i
  {
    if i < 0 { assert (-2 * i - 1) % 2 == 1 && (-2 * i - 1) / 2 == -i - 1; }
  }

  // ---------------------------------------------------------------------------------------
  // Variable-length integers
  // ---------------------------------------------------------------------------------------

  function Pow2(n: nat): (r: nat)
    ensures r > 0
  {
    if n == 0 then 1 else 2 * Pow2(n - 1)
  }

  lemma {:induction false} Pow2Add7(n: nat)
    ensures Pow2(n + 7) == 128 * Pow2(n)
  {
    assert Pow2(n + 7) == 2 * Pow2(n + 6) == 4 * Pow2(n + 5) == 8 * Pow2(n + 4);
    assert Pow2(n + 4) == 2 * Pow2(n + 3) == 4 * Pow2(n + 2) == 8 * Pow2(n + 1) == 16 * Pow2(n);
  }

  /** Seven bits per byte, lowest first; every byte but the last has its top bit set. */
  function EncodeVarint(n: nat): (r: seq<byte>)
    ensures |r| > 0
  {
    if n < 128 then [n] else [128 + n % 128] + EncodeVarint(n / 128)
  }

  /** The number that starts at `pos` and the position after it; nothing if the data ends first. */
  function GetUnsigned(data: seq<byte>, pos: nat): (r: Option<(nat, nat)>)
    ensures r.Some? ==> pos < r.value.1 <= |data|
    decreases |data| - pos
  {
    if pos >= |data| then None
    else if data[pos] < 128 then Some((data[pos], pos + 1))
    else
      match GetUnsigned(data, pos + 1)
      case None => None
      case Some((n, next)) => Some((data[pos] % 128 + 128 * n, next))
  }

  /** A number is read back from wherever its encoding stands. */
  lemma {:induction false} VarintAt(data: seq<byte>, pos: nat, n: nat)
    requires pos + |EncodeVarint(n)| <= |data| && data[pos..pos + |EncodeVarint(n)|] == EncodeVarint(n)
    ensures GetUnsigned(data, pos) == Some((n, pos + |EncodeVarint(n)|))
    decreases n
  {
    var e := EncodeVarint(n);
    var slice := data[pos..pos + |e|];
    assert data[pos] == slice[0] == e[0];
    if n >= 128 {
      var rest := EncodeVarint(n / 128);
      assert slice[1..] == rest && data[pos + 1..pos + 1 + |rest|] == slice[1..];
      VarintAt(data, pos + 1, n / 128);
    }
  }

  lemma GetEncodedVarint(n: nat, before: seq<byte>, after: seq<byte>)
    ensures GetUnsigned(before + EncodeVarint(n) + after, |before|) == Some((n, |before| + |EncodeVarint(n)|))
  {
    hide EncodeVarint, GetUnsigned;
    var e := EncodeVarint(n);
    var data := before + e + after;
    assert data[|before|..|before| + |e|] == e;
    VarintAt(data, |before|, n);
  }

  /** No encoding is a proper prefix of another. */
  lemma VarintPrefixFree(m: nat, n: nat)
    requires EncodeVarint(m) <= EncodeVarint(n)
    ensures m == n
  {
    hide EncodeVarint, GetUnsigned;
    var e, f := EncodeVarint(m), EncodeVarint(n);
    GetEncodedVarint(m, [], f[|e|..]);
    GetEncodedVarint(n, [], []);
    assert [] + e + f[|e|..] == f && [] + f + [] == f;
  }

  // ---------------------------------------------------------------------------------------
  // Fixed-width integers
  // ---------------------------------------------------------------------------------------

  function Pow256(n: nat): (r: nat)
    ensures r > 0
  {
    if n == 0 then 1 else 256 * Pow256(n - 1)
  }

  function LittleEndian(n: nat, width: nat): (r: seq<byte>)
    ensures |r| == width
  {
    if width == 0 then [] else [n % 256] + LittleEndian(n / 256, width - 1)
  }

  function FromLittleEndian(bs: seq<byte>): (r: nat)
    ensures r < Pow256(|bs|)
  {
    if bs == [] then 0 else bs[0] + 256 * FromLittleEndian(bs[1..])
  }

  lemma {:induction false} LittleEndianRoundTrip(n: nat, width: nat)
    requires n < Pow256(width)
    ensures FromLittleEndian(LittleEndian(n, width)) == n
  {
    if width > 0 {
      LittleEndianRoundTrip(n / 256, width - 1);
      assert LittleEndian(n, width)[1..] == LittleEndian(n / 256, width - 1);
    }
  }

  /** Two's complement for signed fields. */
  function Wrap(v: int, width: nat): int {
    if v < 0 then v + Pow256(width) else v
  }

  function Unwrap(n: nat, width: nat, signed: bool): int {
    if signed && 2 * n >= Pow256(width) then n - Pow256(width) else n
  }

  predicate InRange(v: int, width: nat, signed: bool) {
    if signed then -2 * v <= Pow256(width) && 2 * v < Pow256(width) else 0 <= v < Pow256(width)
  }

  function PackInt(v: int, width: nat, signed: bool): (r: seq<byte>)
    requires InRange(v, width, signed)
    ensures |r| == width
  {
    LittleEndian(Wrap(v, width), width)
  }

  function UnpackInt(bs: seq<byte>, signed: bool): (r: int)
    ensures InRange(r, |bs|, signed)
  {
    Unwrap(FromLittleEndian(bs), |bs|, signed)
  }

  lemma PackedInt(v: int, width: nat, signed: bool)
    requires InRange(v, width, signed)
    ensures UnpackInt(PackInt(v, width, signed), signed) == v
  {
    LittleEndianRoundTrip(Wrap(v, width), width);
  }
}
