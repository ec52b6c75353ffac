/**
  * The emitted `to_proto` and `from_proto`, interpreted over an arbitrary schema.  The wire is
  * a sequence of tagged tokens; a length-delimited body is kept as what it was written as.
  */
module Proto {
  import opened Wrappers
  import opened Descriptors

  datatype Payload = Raw(raw: seq<int>) | Packed(raws: seq<seq<int>>) | Sub(tokens: seq<Token>)

  datatype Token = Token(number: int, wire: WireType, payload: Payload)

  /** A schema, its scalar codecs, and the order in which a hash map with the given keys is
      iterated. */
  datatype Env = Env(schema: Schema, codec: Codec, order: set<Scalar> -> seq<Scalar>) {
    ghost predicate Good() {
      && schema.WellFormed() && codec.Lawful()
      && (forall ks :: (forall k :: k in order(ks) <==> k in ks))
      && (forall ks, i, j :: 0 <= i < j < |order(ks)| ==> order(ks)[i] != order(ks)[j])
    }
  }

  /** The kinds whose repeated fields are written packed. */
  predicate Packable(k: Kind) {
    match k
    case ScalarK(sk) => WireTypeOf(sk) != Length
    case EnumK(_) => true
    case MessageK(_, _) => false
  }

  function ElementWire(k: Kind): WireType {
    match k
    case ScalarK(sk) => WireTypeOf(sk)
    case EnumK(_) => Varint
    case MessageK(_, _) => Length
  }

  // ---------------------------------------------------------------------------------------
  // Writing
  // ---------------------------------------------------------------------------------------

  function EncodeScalar(env: Env, k: Kind, v: Value): seq<int> {
    if !v.Sc? then []
    else if k.ScalarK? then env.codec.enc(k.scalar, v.s)
    else env.codec.enc(Int32Kind, v.s)
  }

  function WriteSingular(env: Env, number: int, k: Kind, v: Value): seq<Token>
    decreases v
  {
    if k.MessageK? then
      if v.Msg? then [Token(number, Length, Sub(WriteCells(env, env.schema.Cells(k.message), v.cells)))] else []
    else WriteScalar(env, number, k, v)
  }

  function WriteScalar(env: Env, number: int, k: Kind, v: Value): seq<Token> {
    [Token(number, ElementWire(k), Raw(EncodeScalar(env, k, v)))]
  }

  function WriteCells(env: Env, cells: seq<Cell>, cvs: seq<CellVal>): seq<Token>
    decreases cvs
  {
    if cvs == [] || |cells| < |cvs| then []
    else
      var n := |cvs| - 1;
      WriteCells(env, cells[..n], cvs[..n]) + WriteCell(env, cells[n], cvs[n])
  }

  function WriteCell(env: Env, c: Cell, cv: CellVal): seq<Token>
    decreases cv
  {
    match c
    case Singular(f) => if cv.One? then WriteSingular(env, f.number, f.kind, cv.v) else []
    case OneOf(alts) =>
      if cv.Alt? && cv.i < |alts| then WriteSingular(env, alts[cv.i].number, alts[cv.i].kind, cv.v) else []
    case Repeated(f) =>
      if !cv.Many? then []
      else if Packable(f.kind) then
        [Token(f.number, Length, Packed(seq(|cv.vs|,
          i requires 0 <= i < |cv.vs| => EncodeScalar(env, f.kind, cv.vs[i]))))]
      else WriteAll(env, f.number, f.kind, cv.vs)
    case MapOf(f, key) =>
      if !cv.Table? then [] else WriteEntries(env, f, key, cv, env.order(cv.m.Keys))
  }

  function WriteAll(env: Env, number: int, k: Kind, vs: seq<Value>): seq<Token>
    decreases vs
  {
    if vs == [] then []
    else WriteAll(env, number, k, vs[..|vs| - 1]) + WriteSingular(env, number, k, vs[|vs| - 1])
  }

  function WriteEntries(env: Env, f: Field, key: ScalarKind, cv: CellVal, ks: seq<Scalar>): seq<Token>
    requires cv.Table?
    decreases cv, |ks|
  {
    if ks == [] then []
    else
      var k := ks[|ks| - 1];
      WriteEntries(env, f, key, cv, ks[..|ks| - 1]) +
      (if k in cv.m then
         [Token(f.number, Length, Sub(WriteScalar(env, 1, ScalarK(key), Sc(k)) +
                                      WriteSingular(env, 2, f.kind, cv.m[k])))]
       else [])
  }

  // ---------------------------------------------------------------------------------------
  // Reading
  // ---------------------------------------------------------------------------------------

  function DecodeScalar(env: Env, k: Kind, raw: seq<int>): Result<Value> {
    match k
    case ScalarK(sk) => (match env.codec.dec(sk, raw) case Some(s) => Ok(Sc(s)) case None => Err)
    case EnumK(numbers) =>
      (match env.codec.dec(Int32Kind, raw)
       case Some(s) => Ok(Sc(if s.Num? && s.n in numbers then s else Num(0)))
       case None => Err)
    case MessageK(_, _) => Err
  }

  function DecodeAll(env: Env, k: Kind, raws: seq<seq<int>>): Result<seq<Value>> {
    if raws == [] then Ok([])
    else
      match (DecodeAll(env, k, raws[..|raws| - 1]), DecodeScalar(env, k, raws[|raws| - 1]))
      case (Ok(vs), Ok(v)) => Ok(vs + [v])
      case _ => Err
  }

  function ReadSingular(env: Env, k: Kind, t: Token): Result<Value>
    decreases t, 0
  {
    if t.wire != ElementWire(k) then Err
    else if k.MessageK? then
      if !t.payload.Sub? then Err
      else
        var cells := env.schema.Cells(k.message);
        match ReadCells(env, cells, t.payload.tokens, DefaultCells(env.schema, env.codec, cells))
        case Ok(cvs) => Ok(Msg(cvs))
        case Err => Err
    else if t.payload.Raw? then DecodeScalar(env, k, t.payload.raw)
    else Err
  }

  /** The position of the cell that holds the field, or the number of cells for an unknown field. */
  function CellIndex(cells: seq<Cell>, number: int): (r: nat)
    ensures r <= |cells|
    ensures r < |cells| ==> number in Numbers(cells[r])
    ensures forall i :: 0 <= i < r ==> number !in Numbers(cells[i])
  {
    if cells == [] then 0
    else if number in Numbers(cells[0]) then 0
    else
      var r := CellIndex(cells[1..], number);
      assert forall i :: 0 < i < |cells| ==> cells[i] == cells[1..][i - 1];
      r + 1
  }

  function AltIndex(alts: seq<Field>, number: int): (r: nat)
    ensures r <= |alts|
    ensures r < |alts| ==> alts[r].number == number
    ensures forall i :: 0 <= i < r ==> alts[i].number != number
  {
    FirstField(alts, (f: Field) => f.number == number)
  }

  /** What one token makes of the cell it belongs to. */
  function ReadCell(env: Env, c: Cell, t: Token, cv: CellVal): Result<CellVal>
    decreases t, 1
  {
    match c
    case Singular(f) => (match ReadSingular(env, f.kind, t) case Ok(v) => Ok(One(v)) case Err => Err)
    case OneOf(alts) =>
      var a := AltIndex(alts, t.number);
      if a == |alts| then Err
      else (match ReadSingular(env, alts[a].kind, t) case Ok(v) => Ok(Alt(a, v)) case Err => Err)
    case Repeated(f) =>
      var sofar := if cv.Many? then cv.vs else [];
      if Packable(f.kind) && t.wire == Length then
        if !t.payload.Packed? then Err
        else (match DecodeAll(env, f.kind, t.payload.raws) case Ok(vs) => Ok(Many(sofar + vs)) case Err => Err)
      else (match ReadSingular(env, f.kind, t) case Ok(v) => Ok(Many(sofar + [v])) case Err => Err)
    case MapOf(f, key) =>
      var sofar := if cv.Table? then cv.m else map[];
      if t.wire != Length || !t.payload.Sub? then Err
      else
        var cells := EntryCells(key, f.kind);
        match ReadCells(env, cells, t.payload.tokens, DefaultCells(env.schema, env.codec, cells))
        case Ok(entry) => if EntryShape(entry) then Ok(Table(sofar[entry[0].v.s := entry[1].v])) else Err
        case Err => Err
  }

  predicate EntryShape(entry: seq<CellVal>) {
    |entry| == 2 && entry[0].One? && entry[0].v.Sc? && entry[1].One?
  }

  /** The reading loop; fields without a cell are skipped. */
  function ReadCells(env: Env, cells: seq<Cell>, ts: seq<Token>, cvs: seq<CellVal>): (r: Result<seq<CellVal>>)
    requires |cvs| == |cells|
    ensures r.Ok? ==> |r.value| == |cells|
    decreases ts
  {
    if ts == [] then Ok(cvs)
    else
      var t := ts[|ts| - 1];
      match ReadCells(env, cells, ts[..|ts| - 1], cvs)
      case Err => Err
      case Ok(cur) =>
        var i := CellIndex(cells, t.number);
        if i == |cells| then Ok(cur)
        else (match ReadCell(env, cells[i], t, cur[i]) case Ok(cv) => Ok(cur[i := cv]) case Err => Err)
  }

  function ToProto(env: Env, name: string, v: Value): seq<Token> {
    if v.Msg? then WriteCells(env, env.schema.Cells(name), v.cells) else []
  }

  function FromProto(env: Env, name: string, ts: seq<Token>): Result<Value> {
    var cells := env.schema.Cells(name);
    match ReadCells(env, cells, ts, DefaultCells(env.schema, env.codec, cells))
    case Ok(cvs) => Ok(Msg(cvs))
    case Err => Err
  }

  lemma {:induction false} ErrStays(env: Env, cells: seq<Cell>, ts: seq<Token>, cvs: seq<CellVal>, n: nat)
    requires |cvs| == |cells| && n <= |ts| && ReadCells(env, cells, ts[..n], cvs).Err?
    ensures ReadCells(env, cells, ts, cvs).Err?
    decreases |ts| - n
  {
    if n < |ts| {
      assert ts[..n + 1][..n] == ts[..n];
      ErrStays(env, cells, ts, cvs, n + 1);
    } else {
      assert ts[..n] == ts;
    }
  }

  /** The emitted loop: one token at a time, into a message that starts out as given. */
  method ReadLoop(env: Env, cells: seq<Cell>, ts: seq<Token>, start: seq<CellVal>) returns (r: Result<seq<CellVal>>)
    requires |start| == |cells|
    ensures r == ReadCells(env, cells, ts, start)
    decreases ts
  {
    hide ReadCell;
    var self, pos := start, 0;
    while pos < |ts|
      invariant 0 <= pos <= |ts| && |self| == |cells|
      invariant ReadCells(env, cells, ts[..pos], start) == Ok(self)
    {
      var tag := ts[pos];
      var i := CellIndex(cells, tag.number);
      assert ts[..pos + 1][..pos] == ts[..pos];
      if i < |cells| {
        var cv := ReadField(env, cells[i], tag, self[i]);
        if cv.Err? {
          ErrStays(env, cells, ts, start, pos + 1);
          return Err;
        }
        self := self[i := cv.value];
      }
      pos := pos + 1;
    }
    assert ts[..pos] == ts;
    return Ok(self);
  }

  /** One case of the emitted switch: the token of a field, into the cell of that field. */
  method ReadField(env: Env, c: Cell, t: Token, cv: CellVal) returns (r: Result<CellVal>)
    ensures r == ReadCell(env, c, t, cv)
    decreases t, 1
  {
    hide ReadCells, ReadSingular, DecodeAll;
    match c
    case Singular(f) =>
      var v := ReadValue(env, f.kind, t);
      r := if v.Ok? then Ok(One(v.value)) else Err;
    case OneOf(alts) =>
      var a := AltIndex(alts, t.number);
      if a == |alts| {
        return Err;
      }
      var v := ReadValue(env, alts[a].kind, t);
      r := if v.Ok? then Ok(Alt(a, v.value)) else Err;
    case Repeated(f) =>
      var sofar := if cv.Many? then cv.vs else [];
      if Packable(f.kind) && t.wire == Length {
        if !t.payload.Packed? {
          return Err;
        }
        var vs := ReadPacked(env, f.kind, t.payload.raws);
        r := if vs.Ok? then Ok(Many(sofar + vs.value)) else Err;
      } else {
        var v := ReadValue(env, f.kind, t);
        r := if v.Ok? then Ok(Many(sofar + [v.value])) else Err;
      }
    case MapOf(f, key) =>
      var sofar := if cv.Table? then cv.m else map[];
      if t.wire != Length || !t.payload.Sub? {
        return Err;
      }
      var cells := EntryCells(key, f.kind);
      var entry := ReadLoop(env, cells, t.payload.tokens, DefaultCells(env.schema, env.codec, cells));
      r := if entry.Ok? && EntryShape(entry.value) then Ok(Table(sofar[entry.value[0].v.s := entry.value[1].v]))
        else Err;
  }

  /** A singular value: a scalar, or a new message that is read from the body of the token. */
  method ReadValue(env: Env, k: Kind, t: Token) returns (r: Result<Value>)
    ensures r == ReadSingular(env, k, t)
    decreases t, 0
  {
    hide ReadCells, DecodeScalar;
    if t.wire != ElementWire(k) {
      return Err;
    }
    if !k.MessageK? {
      return if t.payload.Raw? then DecodeScalar(env, k, t.payload.raw) else Err;
    }
    if !t.payload.Sub? {
      return Err;
    }
    var cells := env.schema.Cells(k.message);
    var message := ReadLoop(env, cells, t.payload.tokens, DefaultCells(env.schema, env.codec, cells));
    r := if message.Ok? then Ok(Msg(message.value)) else Err;
  }

  /** The elements of a packed field, appended one by one. */
  method ReadPacked(env: Env, k: Kind, raws: seq<seq<int>>) returns (r: Result<seq<Value>>)
    ensures r == DecodeAll(env, k, raws)
  {
    hide DecodeScalar;
    var vs: seq<Value> := [];
    for i := 0 to |raws|
      invariant DecodeAll(env, k, raws[..i]) == Ok(vs)
    {
      assert raws[..i + 1][..i] == raws[..i];
      var v := DecodeScalar(env, k, raws[i]);
      if v.Err? {
        PackedErrStays(env, k, raws, i + 1);
        return Err;
      }
      vs := vs + [v.value];
    }
    assert raws[..|raws|] == raws;
    return Ok(vs);
  }

  lemma {:induction false} PackedErrStays(env: Env, k: Kind, raws: seq<seq<int>>, n: nat)
    requires n <= |raws| && DecodeAll(env, k, raws[..n]).Err?
    ensures DecodeAll(env, k, raws).Err?
    decreases |raws| - n
  {
    hide DecodeScalar;
    if n < |raws| {
      assert raws[..n + 1][..n] == raws[..n];
      PackedErrStays(env, k, raws, n + 1);
    } else {
      assert raws[..n] == raws;
    }
  }
}
