/**
  * What `from_proto` makes of the output of `to_proto`: the value itself, except that a oneof
  * holding a null pointer comes back unset and an undeclared enum number comes back as zero.
  */
module ProtoRoundTrip {
  import opened Wrappers
  import opened Descriptors
  import opened Proto
  import opened ProtoOrder

  // ---------------------------------------------------------------------------------------
  // The value that comes back
  // ---------------------------------------------------------------------------------------

  function SettleKind(s: Schema, k: Kind, v: Value): Value
    decreases v
  {
    match k
    case ScalarK(_) => v
    case EnumK(numbers) => if v.Sc? && v.s.Num? && v.s.n !in numbers then Sc(Num(0)) else v
    case MessageK(name, _) => if v.Msg? then Msg(SettleCells(s, s.Cells(name), v.cells)) else v
  }

  function SettleCells(s: Schema, cells: seq<Cell>, cvs: seq<CellVal>): (r: seq<CellVal>)
    ensures |r| == |cvs|
    decreases cvs
  {
    seq(|cvs|, i requires 0 <= i < |cvs| => if i < |cells| then SettleCell(s, cells[i], cvs[i]) else cvs[i])
  }

  function SettleCell(s: Schema, c: Cell, cv: CellVal): CellVal
    decreases cv
  {
    match c
    case Singular(f) => if cv.One? then One(SettleKind(s, f.kind, cv.v)) else cv
    case OneOf(alts) =>
      if cv.Alt? && cv.i < |alts| then
        if cv.v.Null? then Unset else Alt(cv.i, SettleKind(s, alts[cv.i].kind, cv.v))
      else cv
    case Repeated(f) =>
      if cv.Many? then Many(seq(|cv.vs|, i requires 0 <= i < |cv.vs| => SettleKind(s, f.kind, cv.vs[i]))) else cv
    case MapOf(f, _) =>
      if cv.Table? then Table(map k | k in cv.m :: SettleKind(s, f.kind, cv.m[k])) else cv
  }

  /** No oneof holds a null pointer and every enum number is declared, at any depth. */
  ghost predicate StableKind(s: Schema, k: Kind, v: Value)
    decreases v
  {
    match k
    case ScalarK(_) => true
    case EnumK(numbers) => v.Sc? && v.s.Num? ==> v.s.n in numbers
    case MessageK(name, _) => v.Msg? ==> StableCells(s, s.Cells(name), v.cells)
  }

  ghost predicate StableCells(s: Schema, cells: seq<Cell>, cvs: seq<CellVal>)
    decreases cvs
  {
    forall i :: 0 <= i < |cvs| && i < |cells| ==> StableCell(s, cells[i], cvs[i])
  }

  ghost predicate StableCell(s: Schema, c: Cell, cv: CellVal)
    decreases cv
  {
    match c
    case Singular(f) => cv.One? ==> StableKind(s, f.kind, cv.v)
    case OneOf(alts) => cv.Alt? && cv.i < |alts| ==> !cv.v.Null? && StableKind(s, alts[cv.i].kind, cv.v)
    case Repeated(f) => cv.Many? ==> forall i :: 0 <= i < |cv.vs| ==> StableKind(s, f.kind, cv.vs[i])
    case MapOf(f, _) => cv.Table? ==> forall k :: k in cv.m ==> StableKind(s, f.kind, cv.m[k])
  }

  lemma {:induction false} SettleFixesStable(s: Schema, codec: Codec, k: Kind, v: Value)
    requires s.WellFormed() && s.GoodKind(k) && TypedKind(s, codec, k, v)
    ensures SettleKind(s, k, v) == v <==> StableKind(s, k, v)
    decreases v
  {
    match k
    case ScalarK(_) =>
    case EnumK(_) =>
    case MessageK(name, _) =>
      if v.Msg? { SettleCellsFixesStable(s, codec, s.Cells(name), v.cells); }
  }

  lemma {:induction false} SettleCellsFixesStable(s: Schema, codec: Codec, cells: seq<Cell>, cvs: seq<CellVal>)
    requires s.WellFormed() && s.GoodCells(cells) && TypedCells(s, codec, cells, cvs)
    ensures SettleCells(s, cells, cvs) == cvs <==> StableCells(s, cells, cvs)
    decreases cvs
  {
    forall i | 0 <= i < |cvs| ensures SettleCell(s, cells[i], cvs[i]) == cvs[i] <==> StableCell(s, cells[i], cvs[i]) {
      SettleCellFixesStable(s, codec, cells[i], cvs[i]);
    }
    var r := SettleCells(s, cells, cvs);
    assert r == cvs <==> forall i :: 0 <= i < |cvs| ==> r[i] == cvs[i];
  }

  lemma {:induction false} SettleCellFixesStable(s: Schema, codec: Codec, c: Cell, cv: CellVal)
    requires s.WellFormed() && s.GoodCell(c) && TypedCell(s, codec, c, cv)
    ensures SettleCell(s, c, cv) == cv <==> StableCell(s, c, cv)
    decreases cv
  {
    match c
    case Singular(f) => SettleFixesStable(s, codec, f.kind, cv.v);
    case OneOf(alts) =>
      if cv.Alt? { SettleFixesStable(s, codec, alts[cv.i].kind, cv.v); }
    case Repeated(f) =>
      forall i | 0 <= i < |cv.vs| ensures SettleKind(s, f.kind, cv.vs[i]) == cv.vs[i] <==>
        StableKind(s, f.kind, cv.vs[i]) {
        SettleFixesStable(s, codec, f.kind, cv.vs[i]);
      }
      var r := SettleCell(s, c, cv).vs;
      assert r == cv.vs <==> forall i :: 0 <= i < |cv.vs| ==> r[i] == cv.vs[i];
    case MapOf(f, _) =>
      forall k | k in cv.m ensures SettleKind(s, f.kind, cv.m[k]) == cv.m[k] <==> StableKind(s, f.kind, cv.m[k]) {
        SettleFixesStable(s, codec, f.kind, cv.m[k]);
      }
      var r := SettleCell(s, c, cv).m;
      assert r == cv.m <==> forall k :: k in cv.m ==> r[k] == cv.m[k];
  }

  // ---------------------------------------------------------------------------------------
  // Every written token belongs to its cell
  // ---------------------------------------------------------------------------------------

  lemma {:induction false} WrittenAllNumbers(env: Env, number: int, k: Kind, vs: seq<Value>)
    ensures forall i :: 0 <= i < |WriteAll(env, number, k, vs)| ==> WriteAll(env, number, k, vs)[i].number == number
  {
    if vs != [] { WrittenAllNumbers(env, number, k, vs[..|vs| - 1]); }
  }

  lemma {:induction false} WrittenEntriesNumbers(env: Env, f: Field, key: ScalarKind, cv: CellVal, ks: seq<Scalar>)
    requires cv.Table?
    ensures forall i :: 0 <= i < |WriteEntries(env, f, key, cv, ks)| ==>
            WriteEntries(env, f, key, cv, ks)[i].number == f.number
  {
    if ks != [] { WrittenEntriesNumbers(env, f, key, cv, ks[..|ks| - 1]); }
  }

  lemma WrittenNumbers(env: Env, c: Cell, cv: CellVal)
    ensures forall i :: 0 <= i < |WriteCell(env, c, cv)| ==> WriteCell(env, c, cv)[i].number in Numbers(c)
  {
    match c
    case Singular(f) =>
    case OneOf(alts) => if cv.Alt? && cv.i < |alts| { assert Numbers(c)[cv.i] == alts[cv.i].number; }
    case Repeated(f) => if cv.Many? { WrittenAllNumbers(env, f.number, f.kind, cv.vs); }
    case MapOf(f, key) => if cv.Table? { WrittenEntriesNumbers(env, f, key, cv, env.order(cv.m.Keys)); }
  }

  lemma UniqueIndex(s: Schema, cells: seq<Cell>, j: nat, number: int)
    requires s.GoodCells(cells) && j < |cells| && number in Numbers(cells[j])
    ensures CellIndex(cells, number) == j
  {
  }

  lemma {:induction false} ProjectAll(cells: seq<Cell>, ts: seq<Token>, j: nat, c: nat)
    requires forall i :: 0 <= i < |ts| ==> CellIndex(cells, ts[i].number) == j
    ensures Project(cells, ts, c) == if c == j then ts else []
  {
    if ts != [] { ProjectAll(cells, ts[..|ts| - 1], j, c); }
  }

  lemma {:induction false} ProjectWritten(env: Env, cells: seq<Cell>, cvs: seq<CellVal>, n: nat, c: nat)
    requires env.schema.GoodCells(cells) && |cvs| == |cells| && n <= |cells| && c < |cells|
    ensures Project(cells, WriteCells(env, cells[..n], cvs[..n]), c) == if c < n then WriteCell(env, cells[c], cvs[c])
            else []
  {
    hide WriteCell, CellIndex, Numbers, Schema.GoodCells;
    if n > 0 {
      ProjectWritten(env, cells, cvs, n - 1, c);
      assert cells[..n][..n - 1] == cells[..n - 1] && cvs[..n][..n - 1] == cvs[..n - 1];
      var w := WriteCell(env, cells[n - 1], cvs[n - 1]);
      assert WriteCells(env, cells[..n], cvs[..n]) == WriteCells(env, cells[..n - 1], cvs[..n - 1]) + w;
      hide WriteCells, Project;
      WrittenNumbers(env, cells[n - 1], cvs[n - 1]);
      forall i | 0 <= i < |w| ensures CellIndex(cells, w[i].number) == n - 1 {
        UniqueIndex(env.schema, cells, n - 1, w[i].number);
      }
      ProjectAll(cells, w, n - 1, c);
      ProjectConcat(cells, WriteCells(env, cells[..n - 1], cvs[..n - 1]), w, c);
    }
  }

  // ---------------------------------------------------------------------------------------
  // The round trip
  // ---------------------------------------------------------------------------------------

  lemma ScalarRoundTrip(env: Env, k: Kind, v: Value)
    requires env.Good() && TypedKind(env.schema, env.codec, k, v) && !k.MessageK?
    ensures DecodeScalar(env, k, EncodeScalar(env, k, v)) == Ok(SettleKind(env.schema, k, v))
  {
  }

  lemma {:induction false} SingularRoundTrip(env: Env, number: int, k: Kind, v: Value)
    requires env.Good() && env.schema.GoodKind(k) && TypedKind(env.schema, env.codec, k, v)
    ensures var w := WriteSingular(env, number, k, v);
            if v.Null? then w == []
            else |w| == 1 && w[0].number == number && ReadSingular(env, k, w[0]) == Ok(SettleKind(env.schema, k, v))
    decreases v, 0
  {
    if k.MessageK? {
      if v.Msg? { CellsRoundTrip(env, env.schema.Cells(k.message), v.cells); }
    } else {
      ScalarRoundTrip(env, k, v);
    }
  }

  lemma {:induction false} CellsRoundTrip(env: Env, cells: seq<Cell>, cvs: seq<CellVal>)
    requires env.Good() && env.schema.GoodCells(cells) && TypedCells(env.schema, env.codec, cells, cvs)
    ensures ReadCells(env, cells, WriteCells(env, cells, cvs), DefaultCells(env.schema, env.codec, cells)) ==
            Ok(SettleCells(env.schema, cells, cvs))
    decreases cvs
  {
    var ts, start := WriteCells(env, cells, cvs), DefaultCells(env.schema, env.codec, cells);
    var out := SettleCells(env.schema, cells, cvs);
    forall c | 0 <= c < |cells| ensures FoldCell(env, cells[c], Project(cells, ts, c), start[c]) == Ok(out[c]) {
      assert cells[..|cells|] == cells && cvs[..|cvs|] == cvs;
      ProjectWritten(env, cells, cvs, |cells|, c);
      CellRoundTrip(env, cells[c], cvs[c]);
    }
    ReadIsProduct(env, cells, ts, start);
    ProductUnique(env, cells, ts, ts, start, ReadCells(env, cells, ts, start), Ok(out));
  }

  lemma FoldOne(env: Env, c: Cell, t: Token, cv: CellVal)
    ensures FoldCell(env, c, [t], cv) == ReadCell(env, c, t, cv)
  {
    assert [t][..0] == [];
    assert FoldCell(env, c, [], cv) == Ok(cv);
  }

  lemma {:induction false} OneOfRoundTrip(env: Env, alts: seq<Field>, cv: CellVal)
    requires env.Good() && env.schema.GoodCell(OneOf(alts)) && DistinctNumbers(OneOf(alts))
    requires TypedCell(env.schema, env.codec, OneOf(alts), cv) && cv.Alt?
    ensures FoldCell(env, OneOf(alts), WriteCell(env, OneOf(alts), cv), Unset) ==
            Ok(SettleCell(env.schema, OneOf(alts), cv))
    decreases cv, 1
  {
    hide Env.Good, WriteSingular, ReadSingular, TypedKind, SettleKind, FoldCell;
    var c := OneOf(alts);
    var w := WriteCell(env, c, cv);
    SingularRoundTrip(env, alts[cv.i].number, alts[cv.i].kind, cv.v);
    if cv.v.Null? {
      FoldNone(env, c, Unset);
    } else {
      assert w == [w[0]];
      assert Numbers(c)[cv.i] == alts[cv.i].number;
      var a := AltIndex(alts, w[0].number);
      assert a <= cv.i;
      assert Numbers(c)[a] == alts[a].number;
      FoldOne(env, c, w[0], Unset);
    }
  }

  lemma FoldNone(env: Env, c: Cell, cv: CellVal)
    ensures FoldCell(env, c, [], cv) == Ok(cv)
  {
  }

  lemma {:induction false} SingularCellRoundTrip(env: Env, f: Field, cv: CellVal)
    requires env.Good() && env.schema.GoodKind(f.kind) && TypedCell(env.schema, env.codec, Singular(f), cv)
    ensures FoldCell(env, Singular(f), WriteCell(env, Singular(f), cv),
            DefaultCell(env.schema, env.codec, Singular(f))) ==
            Ok(SettleCell(env.schema, Singular(f), cv))
    decreases cv, 1
  {
    hide Env.Good, WriteSingular, ReadSingular, FoldCell;
    var c, start := Singular(f), DefaultCell(env.schema, env.codec, Singular(f));
    var w := WriteCell(env, c, cv);
    SingularRoundTrip(env, f.number, f.kind, cv.v);
    if cv.v.Null? {
      FoldNone(env, c, start);
    } else {
      assert w == [w[0]];
      FoldOne(env, c, w[0], start);
    }
  }

  lemma {:induction false} RepeatedRoundTrip(env: Env, f: Field, cv: CellVal)
    requires env.Good() && env.schema.GoodCell(Repeated(f)) && TypedCell(env.schema, env.codec, Repeated(f), cv)
    ensures FoldCell(env, Repeated(f), WriteCell(env, Repeated(f), cv), Many([])) ==
            Ok(Many(SettleAll(env.schema, f.kind, cv.vs)))
    decreases cv, 1
  {
    hide Env.Good, TypedKind, FoldCell, EncodeScalar, DecodeAll, SettleKind;
    if Packable(f.kind) {
      var w := WriteCell(env, Repeated(f), cv);
      PackedRoundTrip(env, f.kind, cv.vs, w[0].payload.raws);
      FoldOne(env, Repeated(f), w[0], Many([]));
      assert [] + SettleAll(env.schema, f.kind, cv.vs) == SettleAll(env.schema, f.kind, cv.vs);
    } else {
      AllRoundTrip(env, f, cv.vs);
    }
  }

  lemma {:induction false} CellRoundTrip(env: Env, c: Cell, cv: CellVal)
    requires env.Good() && env.schema.GoodCell(c) && DistinctNumbers(c) && TypedCell(env.schema, env.codec, c, cv)
    ensures FoldCell(env, c, WriteCell(env, c, cv), DefaultCell(env.schema, env.codec, c)) ==
            Ok(SettleCell(env.schema, c, cv))
    decreases cv
  {
    hide WriteSingular, ReadSingular, TypedKind, SettleKind;
    match c
    case Singular(f) => SingularCellRoundTrip(env, f, cv);
    case OneOf(alts) =>
      if cv.Alt? { OneOfRoundTrip(env, alts, cv); }
    case Repeated(f) =>
      RepeatedRoundTrip(env, f, cv);
      assert SettleCell(env.schema, c, cv).vs == SettleAll(env.schema, f.kind, cv.vs);
    case MapOf(f, key) =>
      var ks := env.order(cv.m.Keys);
      assert forall k :: k in ks <==> k in cv.m.Keys;
      EntriesRoundTrip(env, f, key, cv, ks);
      assert SettleCell(env.schema, c, cv).m == SettleKeys(env.schema, f.kind, cv.m, ks);
  }

  function SettleAll(s: Schema, k: Kind, vs: seq<Value>): seq<Value> {
    seq(|vs|, i requires 0 <= i < |vs| => SettleKind(s, k, vs[i]))
  }

  function SettleKeys(s: Schema, kind: Kind, m: map<Scalar, Value>, ks: seq<Scalar>): map<Scalar, Value> {
    map k | k in m && k in ks :: SettleKind(s, kind, m[k])
  }

  lemma {:induction false} PackedRoundTrip(env: Env, k: Kind, vs: seq<Value>, raws: seq<seq<int>>)
    requires env.Good() && !k.MessageK? && |raws| == |vs|
    requires forall i :: 0 <= i < |vs| ==>
               TypedKind(env.schema, env.codec, k, vs[i]) && raws[i] == EncodeScalar(env, k, vs[i])
    ensures DecodeAll(env, k, raws) == Ok(SettleAll(env.schema, k, vs))
  {
    if vs == [] {
      assert SettleAll(env.schema, k, vs) == [];
    } else {
      var n := |vs| - 1;
      PackedRoundTrip(env, k, vs[..n], raws[..n]);
      ScalarRoundTrip(env, k, vs[n]);
      assert SettleAll(env.schema, k, vs) == SettleAll(env.schema, k, vs[..n]) + [SettleKind(env.schema, k, vs[n])];
    }
  }

  lemma {:induction false} AllRoundTrip(env: Env, f: Field, vs: seq<Value>)
    requires env.Good() && env.schema.GoodCell(Repeated(f)) && !Packable(f.kind)
    requires forall i :: 0 <= i < |vs| ==> TypedKind(env.schema, env.codec, f.kind, vs[i])
    ensures FoldCell(env, Repeated(f), WriteAll(env, f.number, f.kind, vs), Many([])) ==
            Ok(Many(SettleAll(env.schema, f.kind, vs)))
    decreases vs
  {
    hide Env.Good, SettleKind, WriteSingular, ReadSingular, FoldCell;
    if vs == [] {
      FoldNone(env, Repeated(f), Many([]));
      assert SettleAll(env.schema, f.kind, vs) == [];
    } else {
      var n := |vs| - 1;
      AllRoundTrip(env, f, vs[..n]);
      assert !vs[n].Null?;
      SingularRoundTrip(env, f.number, f.kind, vs[n]);
      var w := WriteSingular(env, f.number, f.kind, vs[n]);
      assert w == [w[0]];
      var before := SettleAll(env.schema, f.kind, vs[..n]);
      assert ReadCell(env, Repeated(f), w[0], Many(before)) ==
        Ok(Many(before + [SettleKind(env.schema, f.kind, vs[n])]));
      FoldSnoc(env, Repeated(f), WriteAll(env, f.number, f.kind, vs[..n]), w[0], Many([]));
      assert SettleAll(env.schema, f.kind, vs) == before + [SettleKind(env.schema, f.kind, vs[n])];
    }
  }

  /** One map entry, whose two fields are always both written. */
  lemma EntryRead(env: Env, f: Field, key: ScalarKind, k: Scalar, t: Token, v: Value)
    requires env.Good() && env.codec.valid(key, k)
    requires t.number == 2 && ReadSingular(env, f.kind, t) == Ok(v)
    ensures ReadCells(env, EntryCells(key, f.kind), WriteScalar(env, 1, ScalarK(key), Sc(k)) + [t],
                      DefaultCells(env.schema, env.codec, EntryCells(key, f.kind))) == Ok([One(Sc(k)), One(v)])
  {
    var cells := EntryCells(key, f.kind);
    var start := DefaultCells(env.schema, env.codec, cells);
    var t1 := WriteScalar(env, 1, ScalarK(key), Sc(k))[0];
    var ts := [t1] + [t];
    assert Numbers(cells[0]) == [1] && Numbers(cells[1]) == [2];
    assert CellIndex(cells, 1) == 0 && CellIndex(cells, 2) == 1;
    assert ts[..1] == [t1] && [t1][..0] == [];
    assert ReadCells(env, cells, [], start) == Ok(start);
    assert ReadSingular(env, ScalarK(key), t1) == Ok(Sc(k));
    assert ReadCells(env, cells, [t1], start) == Ok(start[0 := One(Sc(k))]);
    assert start[0 := One(Sc(k))][1 := One(v)] == [One(Sc(k)), One(v)];
  }

  /** The token written for one map entry. */
  function EntryToken(env: Env, f: Field, key: ScalarKind, k: Scalar, v: Value): Token {
    Token(f.number, Length, Sub(WriteScalar(env, 1, ScalarK(key), Sc(k)) + WriteSingular(env, 2, f.kind, v)))
  }

  lemma {:induction false} EntryRoundTrip(env: Env, f: Field, key: ScalarKind, k: Scalar, v: Value,
                                          m: map<Scalar, Value>)
    requires env.Good() && env.schema.GoodCell(MapOf(f, key)) && env.codec.valid(key, k)
    requires TypedKind(env.schema, env.codec, f.kind, v)
    ensures ReadCell(env, MapOf(f, key), EntryToken(env, f, key, k, v), Table(m)) ==
            Ok(Table(m[k := SettleKind(env.schema, f.kind, v)]))
    decreases v, 1
  {
    SingularRoundTrip(env, 2, f.kind, v);
    var w := WriteSingular(env, 2, f.kind, v);
    hide Env.Good, WriteSingular, ReadSingular, ReadCells, SettleKind, WriteScalar, DefaultCells, EntryCells;
    assert w == [w[0]];
    EntryRead(env, f, key, k, w[0], SettleKind(env.schema, f.kind, v));
  }

  lemma {:induction false} EntriesRoundTrip(env: Env, f: Field, key: ScalarKind, cv: CellVal, ks: seq<Scalar>)
    requires env.Good() && env.schema.GoodCell(MapOf(f, key)) && TypedCell(env.schema, env.codec, MapOf(f, key), cv)
    requires forall k :: k in ks ==> k in cv.m
    ensures FoldCell(env, MapOf(f, key), WriteEntries(env, f, key, cv, ks), Table(map[])) ==
            Ok(Table(SettleKeys(env.schema, f.kind, cv.m, ks)))
    decreases cv, 0, |ks|
  {
    hide Env.Good, ReadCell, SettleKind, TypedKind, Schema.GoodCell;
    if ks != [] {
      hide FoldCell, SettleKeys, WriteEntries, EntryToken;
      var rest, k := ks[..|ks| - 1], ks[|ks| - 1];
      EntriesRoundTrip(env, f, key, cv, rest);
      var m := SettleKeys(env.schema, f.kind, cv.m, rest);
      EntryRoundTrip(env, f, key, k, cv.m[k], m);
      EntriesSnoc(env, f, key, cv, ks);
      SettleKeysSnoc(env.schema, f.kind, cv.m, ks);
      FoldSnoc(env, MapOf(f, key), WriteEntries(env, f, key, cv, rest), EntryToken(env, f, key, k, cv.m[k]),
        Table(map[]));
    }
  }

  lemma EntriesSnoc(env: Env, f: Field, key: ScalarKind, cv: CellVal, ks: seq<Scalar>)
    requires cv.Table? && ks != [] && ks[|ks| - 1] in cv.m
    ensures var k := ks[|ks| - 1];
            WriteEntries(env, f, key, cv, ks) ==
            WriteEntries(env, f, key, cv, ks[..|ks| - 1]) + [EntryToken(env, f, key, k, cv.m[k])]
  {
    hide WriteScalar, WriteSingular;
  }

  lemma SettleKeysSnoc(s: Schema, kind: Kind, m: map<Scalar, Value>, ks: seq<Scalar>)
    requires ks != [] && ks[|ks| - 1] in m
    ensures var k := ks[|ks| - 1];
            SettleKeys(s, kind, m, ks) == SettleKeys(s, kind, m, ks[..|ks| - 1])[k := SettleKind(s, kind, m[k])]
  {
    hide SettleKind;
    var rest, k := ks[..|ks| - 1], ks[|ks| - 1];
    assert forall x :: x in ks <==> x in rest || x == k;
  }

  /** What comes back. */
  lemma ReadBack(env: Env, name: string, v: Value)
    requires env.Good() && name in env.schema.messages && v.Msg?
    requires TypedKind(env.schema, env.codec, MessageK(name, false), v)
    ensures FromProto(env, name, ToProto(env, name, v)) == Ok(SettleKind(env.schema, MessageK(name, false), v))
  {
    CellsRoundTrip(env, env.schema.Cells(name), v.cells);
  }

  /** `from_proto` undoes `to_proto` exactly on the values in which no oneof holds a null
      pointer and every enum number is declared. */
  lemma RoundTripExactly(env: Env, name: string, v: Value)
    requires env.Good() && name in env.schema.messages && v.Msg?
    requires TypedKind(env.schema, env.codec, MessageK(name, false), v)
    ensures FromProto(env, name, ToProto(env, name, v)) == Ok(v) <==>
            StableCells(env.schema, env.schema.Cells(name), v.cells)
  {
    ReadBack(env, name, v);
    SettleFixesStable(env.schema, env.codec, MessageK(name, false), v);
  }

  /** The failing family at its smallest: a message whose only field is a pointer to itself in
      a oneof, holding null, writes nothing and comes back unset. */
  lemma NullAlternativeIsLost(env: Env)
    requires env.schema.messages == map["node" := [OneOf([Field(1, "next", "next", MessageK("node", true))])]]
             && env.Good()
    ensures var v := Msg([Alt(0, Null)]);
            && TypedKind(env.schema, env.codec, MessageK("node", false), v)
            && ToProto(env, "node", v) == [] && FromProto(env, "node", ToProto(env, "node", v)) == Ok(Msg([Unset]))
  {
    var cells := env.schema.Cells("node");
    var v := Msg([Alt(0, Null)]);
    assert TypedKind(env.schema, env.codec, MessageK("node", true), Null);
    assert TypedCell(env.schema, env.codec, cells[0], v.cells[0]);
    assert cells[..0] == [] && v.cells[..0] == [];
    assert WriteCells(env, cells[..0], v.cells[..0]) == [];
    assert DefaultCells(env.schema, env.codec, cells) == [Unset];
  }

  /** The other failing family at its smallest: an enum that declares only zero, holding any other
      number, comes back as zero. */
  lemma UndeclaredNumberIsLost(env: Env, n: int)
    requires env.Good() && env.schema.messages == map["color" := [Singular(Field(1, "hue", "hue", EnumK({0})))]]
    requires env.codec.valid(Int32Kind, Num(n)) && n != 0
    ensures var v := Msg([One(Sc(Num(n)))]);
            TypedKind(env.schema, env.codec, MessageK("color", false), v) &&
            FromProto(env, "color", ToProto(env, "color", v)) == Ok(Msg([One(Sc(Num(0)))]))
  {
    var v := Msg([One(Sc(Num(n)))]);
    var cells := env.schema.Cells("color");
    assert TypedKind(env.schema, env.codec, EnumK({0}), Sc(Num(n)));
    assert TypedCell(env.schema, env.codec, cells[0], v.cells[0]);
    ReadBack(env, "color", v);
    assert SettleKind(env.schema, EnumK({0}), Sc(Num(n))) == Sc(Num(0));
    assert SettleCells(env.schema, cells, v.cells) == [One(Sc(Num(0)))];
  }
}
