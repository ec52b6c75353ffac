/**
  * Message descriptors as the plugin sees them, and message values as the emitted classes hold
  * them: one storage cell per singular, repeated or map field, and one per oneof.
  */
module Descriptors {
  import opened Wrappers

  datatype WireType = Varint | I32 | I64 | Length

  datatype ScalarKind =
    | BoolKind | Int32Kind | Int64Kind | Sint32Kind | Sint64Kind | Uint32Kind | Uint64Kind
    | FloatKind | Fixed32Kind | Sfixed32Kind | DoubleKind | Fixed64Kind | Sfixed64Kind
    | StringKind | BytesKind | WellKnownKind(name: string)

  function WireTypeOf(k: ScalarKind): WireType {
    match k
    case BoolKind | Int32Kind | Int64Kind | Sint32Kind | Sint64Kind | Uint32Kind | Uint64Kind => Varint
    case FloatKind | Fixed32Kind | Sfixed32Kind => I32
    case DoubleKind | Fixed64Kind | Sfixed64Kind => I64
    case StringKind | BytesKind | WellKnownKind(_) => Length
  }

  datatype Kind =
    | ScalarK(scalar: ScalarKind)
    | EnumK(numbers: set<int>)
    | MessageK(message: string, ptr: bool)

  datatype Field = Field(number: int, name: string, jsonName: string, kind: Kind)

  /** For a map, `f.kind` is the kind of the values. */
  datatype Cell =
    | Singular(f: Field)
    | OneOf(alts: seq<Field>)
    | Repeated(f: Field)
    | MapOf(f: Field, key: ScalarKind)

  /** Messages by name.  `rank` witnesses that no message contains itself by value, without
      which the emitted classes could not be laid out. */
  datatype Schema = Schema(messages: map<string, seq<Cell>>, rank: map<string, nat>) {
    function Cells(name: string): seq<Cell> {
      if name in messages then messages[name] else []
    }

    function Rank(k: Kind): nat {
      if k.MessageK? && !k.ptr && k.message in rank then rank[k.message] + 1 else 0
    }

    function CellRank(c: Cell): nat {
      if c.Singular? then Rank(c.f.kind) else 0
    }

    ghost predicate WellFormed() {
      && (forall m :: m in messages ==> m in rank && GoodCells(messages[m]))
      && (forall m, i :: m in messages && 0 <= i < |messages[m]| ==> CellRank(messages[m][i]) < rank[m] + 1)
    }

    ghost predicate GoodKind(k: Kind) {
      match k
      case ScalarK(_) => true
      case EnumK(numbers) => 0 in numbers
      case MessageK(name, _) => name in messages
    }

    ghost predicate GoodCell(c: Cell) {
      match c
      case Singular(f) => GoodKind(f.kind)
      case OneOf(alts) => forall a :: 0 <= a < |alts| ==> GoodKind(alts[a].kind)
      case Repeated(f) => GoodKind(f.kind) && !(f.kind.MessageK? && f.kind.ptr)
      case MapOf(f, _) => GoodKind(f.kind) && !(f.kind.MessageK? && f.kind.ptr)
    }

    /** Field numbers are unique in a message. */
    ghost predicate GoodCells(cells: seq<Cell>) {
      && (forall i :: 0 <= i < |cells| ==> GoodCell(cells[i]) && DistinctNumbers(cells[i]))
      && (forall i, j, n :: 0 <= i < j < |cells| && n in Numbers(cells[i]) ==> n !in Numbers(cells[j]))
    }
  }

  /** The position of the first field that satisfies `p`, or the number of fields. */
  function FirstField(fields: seq<Field>, p: Field -> bool): (r: nat)
    ensures r <= |fields|
    ensures r < |fields| ==> p(fields[r])
    ensures forall i :: 0 <= i < r ==> !p(fields[i])
  {
    if fields == [] then 0
    else if p(fields[0]) then 0
    else
      var r := FirstField(fields[1..], p);
      assert forall i :: 0 < i < |fields| ==> fields[i] == fields[1..][i - 1];
      r + 1
  }

  function Numbers(c: Cell): seq<int> {
    if c.OneOf? then seq(|c.alts|, i requires 0 <= i < |c.alts| => c.alts[i].number) else [c.f.number]
  }

  ghost predicate DistinctNumbers(c: Cell) {
    forall i, j :: 0 <= i < j < |Numbers(c)| ==> Numbers(c)[i] != Numbers(c)[j]
  }

  /** A map entry is a message with the key as field 1 and the value as field 2. */
  function EntryCells(key: ScalarKind, value: Kind): seq<Cell> {
    [Singular(Field(1, "key", "key", ScalarK(key))), Singular(Field(2, "value", "value", value))]
  }

  // ---------------------------------------------------------------------------------------
  // Values
  // ---------------------------------------------------------------------------------------

  datatype Scalar = Num(n: int) | Bin(b: seq<int>)

  /** `Null` is the null pointer of a field declared with the `ptr` option. */
  datatype Value = Sc(s: Scalar) | Null | Msg(cells: seq<CellVal>)

  datatype CellVal =
    | One(v: Value)
    | Unset
    | Alt(i: nat, v: Value)
    | Many(vs: seq<Value>)
    | Table(m: map<Scalar, Value>)

  /** The scalar codecs, whose inside is not modelled: `dec` undoes `enc` on valid values. */
  datatype Codec = Codec(
    enc: (ScalarKind, Scalar) -> seq<int>,
    dec: (ScalarKind, seq<int>) -> Option<Scalar>,
    valid: (ScalarKind, Scalar) -> bool,
    zero: ScalarKind -> Scalar)
  {
    ghost predicate Lawful() {
      && (forall k, v :: valid(k, v) ==> dec(k, enc(k, v)) == Some(v))
      && (forall k :: valid(k, zero(k)))
      && (forall v :: valid(Int32Kind, v) ==> v.Num?)
      && valid(Int32Kind, Num(0))
    }
  }

  ghost predicate TypedKind(s: Schema, codec: Codec, k: Kind, v: Value)
    decreases v
  {
    match k
    case ScalarK(sk) => v.Sc? && codec.valid(sk, v.s)
    case EnumK(_) => v.Sc? && v.s.Num? && codec.valid(Int32Kind, v.s)
    case MessageK(name, ptr) => if v.Null? then ptr else v.Msg? && TypedCells(s, codec, s.Cells(name), v.cells)
  }

  ghost predicate TypedCells(s: Schema, codec: Codec, cells: seq<Cell>, cvs: seq<CellVal>)
    decreases cvs
  {
    |cvs| == |cells| && forall i :: 0 <= i < |cvs| ==> TypedCell(s, codec, cells[i], cvs[i])
  }

  ghost predicate TypedCell(s: Schema, codec: Codec, c: Cell, cv: CellVal)
    decreases cv
  {
    match c
    case Singular(f) => cv.One? && TypedKind(s, codec, f.kind, cv.v)
    case OneOf(alts) => cv.Unset? || (cv.Alt? && cv.i < |alts| && TypedKind(s, codec, alts[cv.i].kind, cv.v))
    case Repeated(f) => cv.Many? && forall i :: 0 <= i < |cv.vs| ==> TypedKind(s, codec, f.kind, cv.vs[i])
    case MapOf(f, key) =>
      cv.Table? && forall k :: k in cv.m ==> codec.valid(key, k) && TypedKind(s, codec, f.kind, cv.m[k])
  }

  // ---------------------------------------------------------------------------------------
  // Default values
  // ---------------------------------------------------------------------------------------

  function DefaultKind(s: Schema, codec: Codec, k: Kind): Value
    decreases s.Rank(k), 0
  {
    match k
    case ScalarK(sk) => Sc(codec.zero(sk))
    case EnumK(_) => Sc(Num(0))
    case MessageK(name, ptr) =>
      if ptr then Null
      else
        var cells := s.Cells(name);
        // A cell of the same or a higher rank does not occur in a well-formed schema.
        Msg(seq(|cells|, i requires 0 <= i < |cells| =>
          if s.CellRank(cells[i]) < s.Rank(k) then DefaultCell(s, codec, cells[i]) else Unset))
  }

  function DefaultCell(s: Schema, codec: Codec, c: Cell): CellVal
    decreases s.CellRank(c), 1
  {
    match c
    case Singular(f) => One(DefaultKind(s, codec, f.kind))
    case OneOf(_) => Unset
    case Repeated(_) => Many([])
    case MapOf(_, _) => Table(map[])
  }

  /** A default-constructed message. */
  function DefaultCells(s: Schema, codec: Codec, cells: seq<Cell>): (r: seq<CellVal>)
    ensures |r| == |cells|
  {
    seq(|cells|, i requires 0 <= i < |cells| => DefaultCell(s, codec, cells[i]))
  }

  lemma DefaultMessage(s: Schema, codec: Codec, name: string)
    requires s.WellFormed() && name in s.messages
    ensures DefaultKind(s, codec, MessageK(name, false)) == Msg(DefaultCells(s, codec, s.Cells(name)))
  {
    var k, cells := MessageK(name, false), s.Cells(name);
    forall i | 0 <= i < |cells| ensures s.CellRank(cells[i]) < s.Rank(k) {
      assert s.CellRank(s.messages[name][i]) < s.rank[name] + 1;
    }
  }
}
