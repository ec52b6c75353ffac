/**
  * The tokens themselves: what `to_proto` writes is the message in the wire format, described
  * without the writer, and `from_proto` fails on exactly the tokens that are not of the format.
  */
module ProtoFormat {
  import opened Wrappers
  import opened Descriptors
  import opened Proto
  import opened ProtoOrder
  import opened ProtoRoundTrip

  /** The wire type of the Protocol Buffers encoding guide. */
  function WireFor(k: Kind): WireType {
    match k
    case EnumK(_) => Varint
    case MessageK(_, _) => Length
    case ScalarK(sk) =>
      if sk in {BoolKind, Int32Kind, Int64Kind, Sint32Kind, Sint64Kind, Uint32Kind, Uint64Kind} then Varint
      else if sk in {FloatKind, Fixed32Kind, Sfixed32Kind} then I32
      else if sk in {DoubleKind, Fixed64Kind, Sfixed64Kind} then I64
      else Length
  }

  lemma WiresAgree(k: Kind)
    ensures ElementWire(k) == WireFor(k) && (Packable(k) <==> WireFor(k) != Length)
  {
  }

  /** The codec that is used for a kind that is no message. */
  function CodecKind(k: Kind): ScalarKind {
    if k.ScalarK? then k.scalar else Int32Kind
  }

  // ---------------------------------------------------------------------------------------
  // What is written
  // ---------------------------------------------------------------------------------------

  /** A token that carries one value under a field number. */
  ghost predicate IsElement(env: Env, number: int, k: Kind, v: Value, t: Token)
    decreases v, 0
  {
    && t.number == number && t.wire == WireFor(k)
    && if k.MessageK? then
         v.Msg? && t.payload.Sub? && IsBody(env, env.schema.Cells(k.message), v.cells, t.payload.tokens)
       else v.Sc? && t.payload == Raw(env.codec.enc(CodecKind(k), v.s))
  }

  /** Nothing for a null pointer, and one token for any other value. */
  ghost predicate IsOptional(env: Env, f: Field, v: Value, ts: seq<Token>)
    decreases v, 1
  {
    if v.Null? then ts == [] else |ts| == 1 && IsElement(env, f.number, f.kind, v, ts[0])
  }

  ghost predicate IsEntry(env: Env, f: Field, key: ScalarKind, k: Scalar, v: Value, t: Token)
    decreases v, 1
  {
    && t.number == f.number && t.wire == Length && t.payload.Sub? && |t.payload.tokens| == 2
    && t.payload.tokens[0] == Token(1, WireFor(ScalarK(key)), Raw(env.codec.enc(key, k)))
    && IsElement(env, 2, f.kind, v, t.payload.tokens[1])
  }

  /** The tokens of one cell. */
  ghost predicate IsCell(env: Env, c: Cell, cv: CellVal, ts: seq<Token>)
    decreases cv
  {
    match c
    case Singular(f) => cv.One? && IsOptional(env, f, cv.v, ts)
    case OneOf(alts) =>
      if cv.Unset? then ts == [] else cv.Alt? && cv.i < |alts| && IsOptional(env, alts[cv.i], cv.v, ts)
    case Repeated(f) =>
      && cv.Many?
      && if WireFor(f.kind) == Length then
           |ts| == |cv.vs| && forall i :: 0 <= i < |cv.vs| ==> IsElement(env, f.number, f.kind, cv.vs[i], ts[i])
         else
           && |ts| == 1 && ts[0].number == f.number && ts[0].wire == Length && ts[0].payload.Packed?
           && |ts[0].payload.raws| == |cv.vs|
           && forall i :: 0 <= i < |cv.vs| ==>
                cv.vs[i].Sc? && ts[0].payload.raws[i] == env.codec.enc(CodecKind(f.kind), cv.vs[i].s)
    case MapOf(f, key) =>
      cv.Table? && |ts| == |cv.m| && forall k :: k in cv.m ==>
        exists t :: t in ts && IsEntry(env, f, key, k, cv.m[k], t)
  }

  ghost predicate InCellOrder(cells: seq<Cell>, ts: seq<Token>) {
    && (forall i :: 0 <= i < |ts| ==> CellIndex(cells, ts[i].number) < |cells|)
    && (forall i, j :: 0 <= i < j < |ts| ==> CellIndex(cells, ts[i].number) <= CellIndex(cells, ts[j].number))
  }

  /** The tokens of a message: no unknown fields, in the order of the declarations, and for every
      cell its tokens. */
  ghost predicate IsBody(env: Env, cells: seq<Cell>, cvs: seq<CellVal>, ts: seq<Token>)
    decreases cvs
  {
    && |cvs| == |cells| && InCellOrder(cells, ts)
    && forall c :: 0 <= c < |cells| ==> IsCell(env, cells[c], cvs[c], Project(cells, ts, c))
  }

  /** The body of every typed message is written in the format. */
  lemma {:induction false} BodyIsWritten(env: Env, cells: seq<Cell>, cvs: seq<CellVal>)
    requires env.Good() && env.schema.GoodCells(cells) && TypedCells(env.schema, env.codec, cells, cvs)
    ensures IsBody(env, cells, cvs, WriteCells(env, cells, cvs))
    decreases cvs
  {
    hide Env.Good, IsCell, Schema.GoodCell, WriteCell, TypedCell;
    WrittenInOrder(env, cells, cvs, |cells|);
    assert cells[..|cells|] == cells && cvs[..|cvs|] == cvs;
    forall c | 0 <= c < |cells|
      ensures IsCell(env, cells[c], cvs[c], Project(cells, WriteCells(env, cells, cvs), c))
    {
      ProjectWritten(env, cells, cvs, |cells|, c);
      CellIsWritten(env, cells[c], cvs[c]);
    }
  }

  lemma {:induction false} WrittenInOrder(env: Env, cells: seq<Cell>, cvs: seq<CellVal>, n: nat)
    requires env.schema.GoodCells(cells) && |cvs| == |cells| && n <= |cells|
    ensures var ts := WriteCells(env, cells[..n], cvs[..n]);
            && InCellOrder(cells, ts)
            && (forall i :: 0 <= i < |ts| ==> CellIndex(cells, ts[i].number) < n)
  {
    hide WriteCell, CellIndex, Numbers, Schema.GoodCells;
    if n > 0 {
      WrittenInOrder(env, cells, cvs, n - 1);
      assert cells[..n][..n - 1] == cells[..n - 1] && cvs[..n][..n - 1] == cvs[..n - 1];
      var w := WriteCell(env, cells[n - 1], cvs[n - 1]);
      assert WriteCells(env, cells[..n], cvs[..n]) == WriteCells(env, cells[..n - 1], cvs[..n - 1]) + w;
      WrittenNumbers(env, cells[n - 1], cvs[n - 1]);
      forall i | 0 <= i < |w| ensures CellIndex(cells, w[i].number) == n - 1 {
        UniqueIndex(env.schema, cells, n - 1, w[i].number);
      }
    }
  }

  lemma {:induction false} ElementIsWritten(env: Env, number: int, k: Kind, v: Value)
    requires env.Good() && env.schema.GoodKind(k) && TypedKind(env.schema, env.codec, k, v)
    ensures var ts := WriteSingular(env, number, k, v);
            if v.Null? then ts == [] else |ts| == 1 && IsElement(env, number, k, v, ts[0])
    decreases v, 0
  {
    WiresAgree(k);
    if k.MessageK? && v.Msg? {
      BodyIsWritten(env, env.schema.Cells(k.message), v.cells);
    }
  }

  lemma {:induction false} CellIsWritten(env: Env, c: Cell, cv: CellVal)
    requires env.Good() && env.schema.GoodCell(c) && TypedCell(env.schema, env.codec, c, cv)
    ensures IsCell(env, c, cv, WriteCell(env, c, cv))
    decreases cv
  {
    hide Env.Good, IsElement, IsBody, IsEntry, WriteSingular;
    match c
    case Singular(f) => ElementIsWritten(env, f.number, f.kind, cv.v);
    case OneOf(alts) =>
      if cv.Alt? { ElementIsWritten(env, alts[cv.i].number, alts[cv.i].kind, cv.v); }
    case Repeated(f) =>
      WiresAgree(f.kind);
      if !Packable(f.kind) { ListIsWritten(env, f, cv.vs); }
    case MapOf(f, key) =>
      MapIsWritten(env, f, key, cv);
  }

  lemma {:induction false} ListIsWritten(env: Env, f: Field, vs: seq<Value>)
    requires env.Good() && env.schema.GoodKind(f.kind) && !(f.kind.MessageK? && f.kind.ptr)
    requires forall i :: 0 <= i < |vs| ==> TypedKind(env.schema, env.codec, f.kind, vs[i])
    ensures var ts := WriteAll(env, f.number, f.kind, vs);
            |ts| == |vs| && forall i :: 0 <= i < |vs| ==> IsElement(env, f.number, f.kind, vs[i], ts[i])
    decreases vs
  {
    hide Env.Good, IsElement, WriteSingular;
    if vs != [] {
      ListIsWritten(env, f, vs[..|vs| - 1]);
      ElementIsWritten(env, f.number, f.kind, vs[|vs| - 1]);
    }
  }

  lemma {:induction false} EntryIsWritten(env: Env, f: Field, key: ScalarKind, k: Scalar, v: Value)
    requires env.Good() && env.schema.GoodKind(f.kind) && !(f.kind.MessageK? && f.kind.ptr)
    requires TypedKind(env.schema, env.codec, f.kind, v)
    ensures IsEntry(env, f, key, k, v, EntryToken(env, f, key, k, v))
    decreases v, 1
  {
    hide Env.Good, WriteSingular, IsElement;
    ElementIsWritten(env, 2, f.kind, v);
    WiresAgree(ScalarK(key));
  }

  lemma {:induction false} EntriesAreWritten(env: Env, f: Field, key: ScalarKind, cv: CellVal, ks: seq<Scalar>)
    requires env.Good() && env.schema.GoodCell(MapOf(f, key)) && TypedCell(env.schema, env.codec, MapOf(f, key), cv)
    requires forall k :: k in ks ==> k in cv.m
    ensures var ts := WriteEntries(env, f, key, cv, ks);
            |ts| == |ks| && forall i :: 0 <= i < |ks| ==> IsEntry(env, f, key, ks[i], cv.m[ks[i]], ts[i])
    decreases cv, 0, |ks|
  {
    hide Env.Good, IsEntry, EntryToken;
    if ks != [] {
      hide WriteEntries;
      var rest, k := ks[..|ks| - 1], ks[|ks| - 1];
      EntriesAreWritten(env, f, key, cv, rest);
      EntryIsWritten(env, f, key, k, cv.m[k]);
      EntriesSnoc(env, f, key, cv, ks);
    }
  }

  lemma {:induction false} MapIsWritten(env: Env, f: Field, key: ScalarKind, cv: CellVal)
    requires env.Good() && env.schema.GoodCell(MapOf(f, key)) && TypedCell(env.schema, env.codec, MapOf(f, key), cv)
    ensures IsCell(env, MapOf(f, key), cv, WriteCell(env, MapOf(f, key), cv))
    decreases cv, 1
  {
    hide Env.Good, IsEntry, WriteEntries, TypedKind, Schema.GoodCell;
    var ks := env.order(cv.m.Keys);
    OrderListsKeys(env, cv.m.Keys);
    SizeOfListing(ks, cv.m.Keys);
    EntriesAreWritten(env, f, key, cv, ks);
    var ts := WriteEntries(env, f, key, cv, ks);
    forall k | k in cv.m ensures exists t :: t in ts && IsEntry(env, f, key, k, cv.m[k], t) {
      var i :| 0 <= i < |ks| && ks[i] == k;
      assert ts[i] in ts;
    }
  }

  lemma OrderListsKeys(env: Env, s: set<Scalar>)
    requires env.Good()
    ensures forall k :: k in env.order(s) <==> k in s
    ensures forall i, j :: 0 <= i < j < |env.order(s)| ==> env.order(s)[i] != env.order(s)[j]
  {
    hide Schema.WellFormed, Codec.Lawful;
  }

  lemma {:induction false} SizeOfListing(ks: seq<Scalar>, s: set<Scalar>)
    requires forall k :: k in ks <==> k in s
    requires forall i, j :: 0 <= i < j < |ks| ==> ks[i] != ks[j]
    ensures |ks| == |s|
  {
    if ks != [] {
      var n := |ks| - 1;
      assert forall k :: k in ks[..n] <==> k in s - {ks[n]};
      SizeOfListing(ks[..n], s - {ks[n]});
    } else {
      assert s == {};
    }
  }

  /** What is written for a message is that message in the wire format. */
  lemma MessageIsWritten(env: Env, name: string, v: Value)
    requires env.Good() && name in env.schema.messages
    requires TypedKind(env.schema, env.codec, MessageK(name, false), v)
    ensures v.Msg? && IsBody(env, env.schema.Cells(name), v.cells, ToProto(env, name, v))
  {
    hide IsBody;
    BodyIsWritten(env, env.schema.Cells(name), v.cells);
  }

  // ---------------------------------------------------------------------------------------
  // What can be read
  // ---------------------------------------------------------------------------------------

  predicate Decodable(env: Env, k: Kind, raw: seq<int>) {
    env.codec.dec(CodecKind(k), raw).Some?
  }

  /** A token that carries one readable value of a kind. */
  ghost predicate ElementReadable(env: Env, k: Kind, t: Token)
    decreases t, 1
  {
    && t.wire == WireFor(k)
    && if k.MessageK? then t.payload.Sub? && AllReadable(env, env.schema.Cells(k.message), t.payload.tokens)
       else t.payload.Raw? && Decodable(env, k, t.payload.raw)
  }

  ghost predicate TokenReadable(env: Env, c: Cell, t: Token)
    decreases t, 2
  {
    match c
    case Singular(f) => ElementReadable(env, f.kind, t)
    case OneOf(alts) =>
      exists a ::
        0 <= a < |alts| && IsAlternative(alts, a, t.number) && ElementReadable(env, alts[a].kind, t)
    case Repeated(f) =>
      || ElementReadable(env, f.kind, t)
      || (WireFor(f.kind) != Length && t.wire == Length && t.payload.Packed?
          && forall i :: 0 <= i < |t.payload.raws| ==> Decodable(env, f.kind, t.payload.raws[i]))
    case MapOf(f, key) =>
      t.wire == Length && t.payload.Sub? && AllReadable(env, EntryCells(key, f.kind), t.payload.tokens)
  }

  ghost predicate IsAlternative(alts: seq<Field>, a: nat, number: int)
    requires a < |alts|
  {
    alts[a].number == number && forall i :: 0 <= i < a ==> alts[i].number != number
  }

  /** Each token of a known field is readable, at every depth; their order does not matter. */
  ghost predicate AllReadable(env: Env, cells: seq<Cell>, ts: seq<Token>)
    decreases ts
  {
    forall i :: 0 <= i < |ts| && CellIndex(cells, ts[i].number) < |cells| ==>
      TokenReadable(env, cells[CellIndex(cells, ts[i].number)], ts[i])
  }

  lemma {:induction false} ReadsExactly(env: Env, cells: seq<Cell>, ts: seq<Token>, cvs: seq<CellVal>)
    requires |cvs| == |cells|
    ensures ReadCells(env, cells, ts, cvs).Ok? <==> AllReadable(env, cells, ts)
    decreases ts, 0
  {
    hide TokenReadable, ReadCell;
    if ts != [] {
      var n := |ts| - 1;
      ReadsExactly(env, cells, ts[..n], cvs);
      AllReadableSnoc(env, cells, ts);
      hide AllReadable;
      match ReadCells(env, cells, ts[..n], cvs)
      case Err =>
      case Ok(cur) =>
        var i := CellIndex(cells, ts[n].number);
        if i < |cells| { TokenReadsExactly(env, cells[i], ts[n], cur[i]); }
    }
  }

  lemma AllReadableSnoc(env: Env, cells: seq<Cell>, ts: seq<Token>)
    requires ts != []
    ensures var t := ts[|ts| - 1];
            AllReadable(env, cells, ts) <==>
            && AllReadable(env, cells, ts[..|ts| - 1])
            && (CellIndex(cells, t.number) < |cells| ==> TokenReadable(env, cells[CellIndex(cells, t.number)], t))
  {
    hide TokenReadable, CellIndex;
    var n := |ts| - 1;
    assert forall i :: 0 <= i < n ==> ts[i] == ts[..n][i];
  }

  lemma {:induction false} ElementReadsExactly(env: Env, k: Kind, t: Token)
    ensures ReadSingular(env, k, t).Ok? <==> ElementReadable(env, k, t)
    ensures ElementReadable(env, k, t) ==> t.wire == WireFor(k)
    decreases t, 1
  {
    WiresAgree(k);
    if k.MessageK? && t.payload.Sub? {
      var cells := env.schema.Cells(k.message);
      ReadsExactly(env, cells, t.payload.tokens, DefaultCells(env.schema, env.codec, cells));
    }
  }

  lemma {:induction false} TokenReadsExactly(env: Env, c: Cell, t: Token, cv: CellVal)
    ensures ReadCell(env, c, t, cv).Ok? <==> TokenReadable(env, c, t)
    decreases t, 2
  {
    hide ElementReadable, ReadSingular, ReadCells, AllReadable;
    match c
    case Singular(f) => ElementReadsExactly(env, f.kind, t);
    case OneOf(alts) =>
      var a := AltIndex(alts, t.number);
      if a < |alts| {
        ElementReadsExactly(env, alts[a].kind, t);
        assert IsAlternative(alts, a, t.number);
      }
    case Repeated(f) =>
      WiresAgree(f.kind);
      ElementReadsExactly(env, f.kind, t);
      if Packable(f.kind) && t.payload.Packed? { PackedReadsExactly(env, f.kind, t.payload.raws); }
    case MapOf(f, key) =>
      if t.payload.Sub? { EntryReadsExactly(env, f, key, t.payload.tokens); }
  }

  lemma {:induction false} PackedReadsExactly(env: Env, k: Kind, raws: seq<seq<int>>)
    requires !k.MessageK?
    ensures DecodeAll(env, k, raws).Ok? <==> forall i :: 0 <= i < |raws| ==> Decodable(env, k, raws[i])
  {
    if raws != [] {
      var n := |raws| - 1;
      PackedReadsExactly(env, k, raws[..n]);
      assert forall i :: 0 <= i < n ==> raws[i] == raws[..n][i];
    }
  }

  lemma EntryReadsExactly(env: Env, f: Field, key: ScalarKind, ts: seq<Token>)
    ensures var cells := EntryCells(key, f.kind);
            var r := ReadCells(env, cells, ts, DefaultCells(env.schema, env.codec, cells));
            (r.Ok? <==> AllReadable(env, cells, ts)) && (r.Ok? ==> EntryShape(r.value))
    decreases ts, 1
  {
    var cells := EntryCells(key, f.kind);
    var start := DefaultCells(env.schema, env.codec, cells);
    assert EntryShape(start) by {
      assert start[0] == DefaultCell(env.schema, env.codec, cells[0]);
      assert start[1] == DefaultCell(env.schema, env.codec, cells[1]);
    }
    hide AllReadable, ReadCells, DefaultCells;
    ReadsExactly(env, cells, ts, start);
    EntryKeepsShape(env, f, key, ts, start);
  }

  lemma {:induction false} EntryKeepsShape(env: Env, f: Field, key: ScalarKind, ts: seq<Token>, cvs: seq<CellVal>)
    requires EntryShape(cvs)
    ensures var r := ReadCells(env, EntryCells(key, f.kind), ts, cvs);
            r.Ok? ==> EntryShape(r.value)
    decreases ts
  {
    if ts != [] {
      var t, cells := ts[|ts| - 1], EntryCells(key, f.kind);
      EntryKeepsShape(env, f, key, ts[..|ts| - 1], cvs);
      hide ReadSingular;
      ScalarIsRead(env, key, t);
      var i := CellIndex(cells, t.number);
      assert i < 2 ==> cells[i].Singular?;
    }
  }

  lemma ScalarIsRead(env: Env, key: ScalarKind, t: Token)
    ensures var r := ReadSingular(env, ScalarK(key), t); r.Ok? ==> r.value.Sc?
  {
  }

  /** Parsing succeeds if and only if every token of a known field is readable: wire type and
      payload at every depth, in whatever order. */
  lemma ParsesExactly(env: Env, name: string, ts: seq<Token>)
    ensures FromProto(env, name, ts).Ok? <==> AllReadable(env, env.schema.Cells(name), ts)
  {
    hide AllReadable;
    var cells := env.schema.Cells(name);
    ReadsExactly(env, cells, ts, DefaultCells(env.schema, env.codec, cells));
  }
}
