/**
  * A message field that occurs twice.  The encoding guide asks readers to merge the occurrences,
  * as if their bodies were one; the emitted reader keeps the last one.
  */
module ProtoMerge {
  import opened Wrappers
  import opened Sequences
  import opened Descriptors
  import opened Proto
  import opened ProtoOrder

  // ---------------------------------------------------------------------------------------
  // One cell reading two runs of tokens
  // ---------------------------------------------------------------------------------------

  lemma {:induction false} FoldConcat(env: Env, c: Cell, p: seq<Token>, q: seq<Token>, cv: CellVal)
    ensures FoldCell(env, c, p + q, cv) ==
            match FoldCell(env, c, p, cv)
            case Err => Err
            case Ok(x) => FoldCell(env, c, q, x)
  {
    hide ReadCell;
    if q == [] {
      assert p + q == p;
    } else {
      var rest, t := q[..|q| - 1], q[|q| - 1];
      FoldConcat(env, c, p, rest, cv);
      Assoc(p, rest, [t]);
      SplitLast(q);
      FoldSnoc(env, c, p + rest, t, cv);
    }
  }

  /** A singular field or a oneof takes its value from the last token alone. */
  lemma {:induction false} LastTokenDecides(env: Env, c: Cell, p: seq<Token>, cv: CellVal, cv': CellVal)
    requires (c.Singular? || c.OneOf?) && p != []
    ensures FoldCell(env, c, p, cv) == FoldCell(env, c, p, cv')
  {
    var rest, t := p[..|p| - 1], p[|p| - 1];
    hide ReadSingular;
    if rest == [] {
      assert FoldCell(env, c, rest, cv) == Ok(cv) && FoldCell(env, c, rest, cv') == Ok(cv');
    } else {
      LastTokenDecides(env, c, rest, cv, cv');
    }
  }

  /** A list is added to. */
  lemma {:induction false} ListsAdd(env: Env, c: Cell, p: seq<Token>, vs: seq<Value>)
    requires c.Repeated?
    ensures FoldCell(env, c, p, Many(vs)) ==
            match FoldCell(env, c, p, Many([]))
            case Err => Err
            case Ok(x) => if x.Many? then Ok(Many(vs + x.vs)) else Err
  {
    hide ReadSingular, DecodeAll;
    if p == [] {
      assert vs + [] == vs;
    } else {
      var rest := p[..|p| - 1];
      ListsAdd(env, c, rest, vs);
      match FoldCell(env, c, rest, Many([])) {
        case Err =>
        case Ok(x) => ListStep(env, c, p[|p| - 1], vs, x);
      }
    }
  }

  lemma ListStep(env: Env, c: Cell, t: Token, vs: seq<Value>, x: CellVal)
    requires c.Repeated? && x.Many?
    ensures ReadCell(env, c, t, Many(vs + x.vs)) ==
            match ReadCell(env, c, t, x)
            case Err => Err
            case Ok(y) => if y.Many? then Ok(Many(vs + y.vs)) else Err
  {
    hide ReadSingular, DecodeAll;
    if Packable(c.f.kind) && t.wire == Length {
      if t.payload.Packed? && DecodeAll(env, c.f.kind, t.payload.raws).Ok? {
        Assoc(vs, x.vs, DecodeAll(env, c.f.kind, t.payload.raws).value);
      }
    } else if ReadSingular(env, c.f.kind, t).Ok? {
      Assoc(vs, x.vs, [ReadSingular(env, c.f.kind, t).value]);
    }
  }

  /** A map is added to, later entries winning. */
  lemma {:induction false} MapsAdd(env: Env, c: Cell, p: seq<Token>, m: map<Scalar, Value>)
    requires c.MapOf?
    ensures FoldCell(env, c, p, Table(m)) ==
            match FoldCell(env, c, p, Table(map[]))
            case Err => Err
            case Ok(x) => if x.Table? then Ok(Table(m + x.m)) else Err
  {
    hide ReadCells;
    if p == [] {
      assert m + map[] == m;
    } else {
      var rest := p[..|p| - 1];
      MapsAdd(env, c, rest, m);
      match FoldCell(env, c, rest, Table(map[])) {
        case Err =>
        case Ok(x) => MapStep(env, c, p[|p| - 1], m, x);
      }
    }
  }

  lemma MapStep(env: Env, c: Cell, t: Token, m: map<Scalar, Value>, x: CellVal)
    requires c.MapOf? && x.Table?
    ensures ReadCell(env, c, t, Table(m + x.m)) ==
            match ReadCell(env, c, t, x)
            case Err => Err
            case Ok(y) => if y.Table? then Ok(Table(m + y.m)) else Err
  {
    hide ReadCells;
    if t.wire == Length && t.payload.Sub? {
      var inner := EntryCells(c.key, c.f.kind);
      var r := ReadCells(env, inner, t.payload.tokens, DefaultCells(env.schema, env.codec, inner));
      if r.Ok? && EntryShape(r.value) {
        var k, v := r.value[0].v.s, r.value[1].v;
        assert (m + x.m)[k := v] == m + x.m[k := v];
      }
    }
  }

  // ---------------------------------------------------------------------------------------
  // When the second run makes up for the first
  // ---------------------------------------------------------------------------------------

  /** Nothing of what the first body says about a cell is missing from the second: a singular field
      or oneof is set again or was left at its default, a list got nothing, and the keys of a map
      all come again.  `v1` and `v2` are what the two bodies make of the cell, and `p2` are the
      tokens of the second body for it. */
  predicate Overwritten(env: Env, c: Cell, p2: seq<Token>, v1: CellVal, v2: CellVal) {
    match c
    case Singular(_) => p2 != [] || v1 == DefaultCell(env.schema, env.codec, c)
    case OneOf(_) => p2 != [] || v1 == Unset
    case Repeated(_) => v1 == Many([])
    case MapOf(_, _) => v1.Table? && v2.Table? && v1.m.Keys <= v2.m.Keys
  }

  lemma CellMergesExactly(env: Env, c: Cell, p1: seq<Token>, p2: seq<Token>)
    requires FoldCell(env, c, p1, DefaultCell(env.schema, env.codec, c)).Ok?
    requires FoldCell(env, c, p2, DefaultCell(env.schema, env.codec, c)).Ok?
    ensures var start := DefaultCell(env.schema, env.codec, c);
            var v1, v2 := FoldCell(env, c, p1, start).value, FoldCell(env, c, p2, start).value;
            FoldCell(env, c, p1 + p2, start).Ok? &&
            (FoldCell(env, c, p1 + p2, start) == Ok(v2) <==> Overwritten(env, c, p2, v1, v2))
  {
    var start := DefaultCell(env.schema, env.codec, c);
    var v1, v2 := FoldCell(env, c, p1, start).value, FoldCell(env, c, p2, start).value;
    FoldConcat(env, c, p1, p2, start);
    match c
    case Singular(_) => if p2 != [] { LastTokenDecides(env, c, p2, start, v1); }
    case OneOf(_) => if p2 != [] { LastTokenDecides(env, c, p2, start, v1); }
    case Repeated(_) =>
      hide FoldCell;
      ListsAdd(env, c, p1, []);
      ListsAdd(env, c, p2, []);
      ListsAdd(env, c, p2, v1.vs);
      assert v1.vs + v2.vs == v2.vs <==> v1.vs == [] by {
        assert |v1.vs + v2.vs| == |v1.vs| + |v2.vs|;
        assert [] + v2.vs == v2.vs;
      }
    case MapOf(_, _) =>
      hide FoldCell;
      MapsAdd(env, c, p1, map[]);
      MapsAdd(env, c, p2, map[]);
      MapsAdd(env, c, p2, v1.m);
      MergeKeepsRight(v1.m, v2.m);
  }

  lemma MergeKeepsRight(m: map<Scalar, Value>, n: map<Scalar, Value>)
    ensures m + n == n <==> m.Keys <= n.Keys
  {
    if m + n == n {
      assert (m + n).Keys == m.Keys + n.Keys;
    }
  }

  lemma FailedCell(env: Env, c: Cell, p1: seq<Token>, p2: seq<Token>)
    requires FoldCell(env, c, p1, DefaultCell(env.schema, env.codec, c)).Err?
             || FoldCell(env, c, p2, DefaultCell(env.schema, env.codec, c)).Err?
    ensures FoldCell(env, c, p1 + p2, DefaultCell(env.schema, env.codec, c)).Err?
  {
    var start := DefaultCell(env.schema, env.codec, c);
    FoldConcat(env, c, p1, p2, start);
    if FoldCell(env, c, p1, start).Ok? {
      var v1 := FoldCell(env, c, p1, start).value;
      match c
      case Singular(_) => LastTokenDecides(env, c, p2, start, v1);
      case OneOf(_) => LastTokenDecides(env, c, p2, start, v1);
      case Repeated(_) =>
        ListsAdd(env, c, p1, []);
        ListsAdd(env, c, p2, v1.vs);
      case MapOf(_, _) =>
        MapsAdd(env, c, p1, map[]);
        MapsAdd(env, c, p2, v1.m);
    }
  }

  function ReadBody(env: Env, cells: seq<Cell>, body: seq<Token>): Result<seq<CellVal>> {
    ReadCells(env, cells, body, DefaultCells(env.schema, env.codec, cells))
  }

  /** Both bodies are readable, and the second makes up for the first in every cell. */
  ghost predicate SecondSuffices(env: Env, cells: seq<Cell>, b1: seq<Token>, b2: seq<Token>) {
    match (ReadBody(env, cells, b1), ReadBody(env, cells, b2))
    case (Ok(v1), Ok(v2)) =>
      |v1| == |v2| == |cells| &&
      forall c :: 0 <= c < |cells| ==> Overwritten(env, cells[c], Project(cells, b2, c), v1[c], v2[c])
    case _ => false
  }

  /** Reading two bodies as one gives what the second alone gives if and only if the second makes
      up for the first. */
  lemma BodiesMergeExactly(env: Env, cells: seq<Cell>, b1: seq<Token>, b2: seq<Token>)
    ensures ReadBody(env, cells, b1 + b2).Ok? <==> ReadBody(env, cells, b1).Ok? && ReadBody(env, cells, b2).Ok?
    ensures ReadBody(env, cells, b1).Ok? && ReadBody(env, cells, b2).Ok? ==>
              (ReadBody(env, cells, b1 + b2) == ReadBody(env, cells, b2) <==> SecondSuffices(env, cells, b1, b2))
  {
    hide ReadCells, FoldCell, Project, Overwritten, DefaultCell;
    var start := DefaultCells(env.schema, env.codec, cells);
    ReadIsProduct(env, cells, b1, start);
    ReadIsProduct(env, cells, b2, start);
    ReadIsProduct(env, cells, b1 + b2, start);
    forall c | 0 <= c < |cells|
      ensures Project(cells, b1 + b2, c) == Project(cells, b1, c) + Project(cells, b2, c)
    {
      ProjectConcat(cells, b1, b2, c);
    }
    var r1, r2, r := ReadBody(env, cells, b1), ReadBody(env, cells, b2), ReadBody(env, cells, b1 + b2);
    if r1.Ok? && r2.Ok? {
      forall c | 0 <= c < |cells|
        ensures FoldCell(env, cells[c], Project(cells, b1 + b2, c), start[c]).Ok?
        ensures FoldCell(env, cells[c], Project(cells, b1 + b2, c), start[c]) == Ok(r2.value[c]) <==>
                Overwritten(env, cells[c], Project(cells, b2, c), r1.value[c], r2.value[c])
      {
        CellMergesExactly(env, cells[c], Project(cells, b1, c), Project(cells, b2, c));
      }
      assert r.Ok?;
      SameResults(r.value, r2.value);
    } else {
      var c :| 0 <= c < |cells| && (FoldCell(env, cells[c], Project(cells, b1, c), start[c]).Err? ||
                                    FoldCell(env, cells[c], Project(cells, b2, c), start[c]).Err?);
      FailedCell(env, cells[c], Project(cells, b1, c), Project(cells, b2, c));
    }
  }

  lemma SameResults(a: seq<CellVal>, b: seq<CellVal>)
    requires |a| == |b|
    ensures a == b <==> forall c :: 0 <= c < |a| ==> a[c] == b[c]
  {
  }

  // ---------------------------------------------------------------------------------------
  // Two occurrences in a message
  // ---------------------------------------------------------------------------------------

  /** The message type of a singular or oneof field with this number, if it has one. */
  function MessageOf(c: Cell, number: int): Option<string> {
    match c
    case Singular(f) => if f.kind.MessageK? then Some(f.kind.message) else None
    case OneOf(alts) =>
      var a := AltIndex(alts, number);
      if a < |alts| && alts[a].kind.MessageK? then Some(alts[a].kind.message) else None
    case _ => None
  }

  function Body(number: int, body: seq<Token>): Token {
    Token(number, Length, Sub(body))
  }

  lemma ReadOneBody(env: Env, c: Cell, number: int, body: seq<Token>, cv: CellVal)
    requires MessageOf(c, number).Some?
    ensures var r := ReadBody(env, env.schema.Cells(MessageOf(c, number).value), body);
            ReadCell(env, c, Body(number, body), cv) ==
            match r
            case Err => Err
            case Ok(m) => Ok(if c.OneOf? then Alt(AltIndex(c.alts, number), Msg(m)) else One(Msg(m)))
  {
    hide ReadCells;
  }

  /** Two occurrences of a message field are read like one occurrence with both bodies if and only
      if one of the bodies is unreadable or the second makes up for the first. */
  lemma RepeatedMessageMergesExactly(env: Env, cells: seq<Cell>, number: int, b1: seq<Token>, b2: seq<Token>,
                                     start: seq<CellVal>)
    requires |start| == |cells| && CellIndex(cells, number) < |cells|
    requires MessageOf(cells[CellIndex(cells, number)], number).Some?
    ensures var inner := env.schema.Cells(MessageOf(cells[CellIndex(cells, number)], number).value);
            ReadCells(env, cells, [Body(number, b1), Body(number, b2)], start) ==
              ReadCells(env, cells, [Body(number, b1 + b2)], start)
            <==> ReadBody(env, inner, b1).Err? || ReadBody(env, inner, b2).Err? || SecondSuffices(env, inner, b1, b2)
  {
    var i := CellIndex(cells, number);
    var c := cells[i];
    var inner := env.schema.Cells(MessageOf(c, number).value);
    var t1, t2, t := Body(number, b1), Body(number, b2), Body(number, b1 + b2);
    hide ReadCell, MessageOf, SecondSuffices, ReadBody, CellIndex;
    BodiesMergeExactly(env, inner, b1, b2);
    ReadTwo(env, cells, t1, t2, start);
    ReadOne(env, cells, t, start);
    ReadOneBody(env, c, number, b1, start[i]);
    ReadOneBody(env, c, number, b1 + b2, start[i]);
    if ReadBody(env, inner, b1).Ok? {
      var cv := ReadCell(env, c, t1, start[i]).value;
      ReadOneBody(env, c, number, b2, cv);
      if ReadBody(env, inner, b2).Ok? {
        SameUpdates(start, i, cv, ReadCell(env, c, t2, cv).value, ReadCell(env, c, t, start[i]).value);
      }
    }
  }

  lemma SameUpdates(s: seq<CellVal>, i: nat, cv: CellVal, x: CellVal, y: CellVal)
    requires i < |s|
    ensures s[i := cv][i := x] == s[i := y] <==> x == y
  {
    assert s[i := cv][i := x][i] == x && s[i := y][i] == y;
    assert s[i := cv][i := x] == s[i := x];
  }

  lemma ReadOne(env: Env, cells: seq<Cell>, t: Token, start: seq<CellVal>)
    requires |start| == |cells| && CellIndex(cells, t.number) < |cells|
    ensures var i := CellIndex(cells, t.number);
            ReadCells(env, cells, [t], start) ==
            match ReadCell(env, cells[i], t, start[i]) case Err => Err case Ok(cv) => Ok(start[i := cv])
  {
    hide ReadCell, CellIndex;
    assert [t][..0] == [];
    assert ReadCells(env, cells, [], start) == Ok(start);
  }

  lemma ReadTwo(env: Env, cells: seq<Cell>, t1: Token, t2: Token, start: seq<CellVal>)
    requires |start| == |cells| && CellIndex(cells, t1.number) < |cells| && t1.number == t2.number
    ensures var i := CellIndex(cells, t1.number);
            ReadCells(env, cells, [t1, t2], start) ==
            match ReadCell(env, cells[i], t1, start[i])
            case Err => Err
            case Ok(cv) =>
              match ReadCell(env, cells[i], t2, cv)
              case Err => Err
              case Ok(x) => Ok(start[i := cv][i := x])
  {
    hide ReadCell, CellIndex;
    assert [t1, t2][..1] == [t1];
    ReadOne(env, cells, t1, start);
  }

  // ---------------------------------------------------------------------------------------
  // The first body lost
  // ---------------------------------------------------------------------------------------

  function PointCells(): seq<Cell> {
    [Singular(Field(1, "x", "x", ScalarK(BoolKind))), Singular(Field(2, "y", "y", ScalarK(BoolKind)))]
  }

  function HolderCells(): seq<Cell> {
    [Singular(Field(1, "p", "p", MessageK("Point", false)))]
  }

  function Set(env: Env, number: int, v: Scalar): Token {
    Token(number, Varint, Raw(env.codec.enc(BoolKind, v)))
  }

  /** Two occurrences of `p`, the first setting `x` and the second setting `y`: `x` is lost, where
      the merged body sets both. */
  lemma FirstBodyIsLost(env: Env, v: Scalar)
    requires env.schema.messages == map["Holder" := HolderCells(), "Point" := PointCells()] && env.Good()
    requires env.codec.valid(BoolKind, v) && v != env.codec.zero(BoolKind)
    ensures var zero := env.codec.zero(BoolKind);
            var two := FromProto(env, "Holder", [Body(1, [Set(env, 1, v)]), Body(1, [Set(env, 2, v)])]);
            var one := FromProto(env, "Holder", [Body(1, [Set(env, 1, v), Set(env, 2, v)])]);
            && two == Ok(Msg([One(Msg([One(Sc(zero)), One(Sc(v))]))]))
            && one == Ok(Msg([One(Msg([One(Sc(v)), One(Sc(v))]))]))
            && two != one
  {
    var zero := env.codec.zero(BoolKind);
    var holders := HolderCells();
    var x, y := Set(env, 1, v), Set(env, 2, v);
    var outer := DefaultCells(env.schema, env.codec, holders);
    PointBodies(env, v);
    PointIndex();
    hide ReadCells, PointCells, DefaultCells, DefaultCell, CellIndex, ReadCell, Env.Good, Set;
    ReadTwo(env, holders, Body(1, [x]), Body(1, [y]), outer);
    ReadOne(env, holders, Body(1, [x, y]), outer);
    ReadOneBody(env, holders[0], 1, [x], outer[0]);
    ReadOneBody(env, holders[0], 1, [y], One(Msg([One(Sc(v)), One(Sc(zero))])));
    ReadOneBody(env, holders[0], 1, [x, y], outer[0]);
    SingleCell(outer, One(Msg([One(Sc(v)), One(Sc(zero))])), One(Msg([One(Sc(zero)), One(Sc(v))])));
    SingleCell(outer, One(Msg([One(Sc(v)), One(Sc(v))])), One(Msg([One(Sc(v)), One(Sc(v))])));
  }

  lemma SingleCell(s: seq<CellVal>, x: CellVal, y: CellVal)
    requires |s| == 1
    ensures s[0 := x] == [x] && s[0 := x][0 := y] == [y]
  {
  }

  lemma PointBodies(env: Env, v: Scalar)
    requires env.Good() && env.codec.valid(BoolKind, v)
    ensures var zero := env.codec.zero(BoolKind);
            var x, y := Set(env, 1, v), Set(env, 2, v);
            && ReadBody(env, PointCells(), [x]) == Ok([One(Sc(v)), One(Sc(zero))])
            && ReadBody(env, PointCells(), [y]) == Ok([One(Sc(zero)), One(Sc(v))])
            && ReadBody(env, PointCells(), [x, y]) == Ok([One(Sc(v)), One(Sc(v))])
  {
    var zero := env.codec.zero(BoolKind);
    var points := PointCells();
    var x, y := Set(env, 1, v), Set(env, 2, v);
    var start := DefaultCells(env.schema, env.codec, points);
    assert DefaultKind(env.schema, env.codec, ScalarK(BoolKind)) == Sc(zero);
    assert start[0] == DefaultCell(env.schema, env.codec, points[0])
      && start[1] == DefaultCell(env.schema, env.codec, points[1]);
    assert start == [One(Sc(zero)), One(Sc(zero))];
    PointIndex();
    hide DefaultCells, CellIndex;
    ReadOne(env, points, x, start);
    ReadOne(env, points, y, start);
    ReadSet(env, 1, v);
    ReadSet(env, 2, v);
    hide Env.Good, ReadSingular;
    assert start[0 := One(Sc(v))] == [One(Sc(v)), One(Sc(zero))];
    assert start[1 := One(Sc(v))] == [One(Sc(zero)), One(Sc(v))];
    assert [x, y][..1] == [x];
    assert [One(Sc(v)), One(Sc(zero))][1 := One(Sc(v))] == [One(Sc(v)), One(Sc(v))];
  }

  lemma ReadSet(env: Env, number: int, v: Scalar)
    requires env.Good() && env.codec.valid(BoolKind, v)
    ensures ReadSingular(env, ScalarK(BoolKind), Set(env, number, v)) == Ok(Sc(v))
  {
  }

  lemma PointIndex()
    ensures CellIndex(PointCells(), 1) == 0 && CellIndex(PointCells(), 2) == 1 && CellIndex(HolderCells(), 1) == 0
  {
    assert Numbers(PointCells()[0]) == [1] && Numbers(PointCells()[1]) == [2] && Numbers(HolderCells()[0]) == [1];
  }

  // ---------------------------------------------------------------------------------------
  // Packed and unpacked lists
  // ---------------------------------------------------------------------------------------

  /** Each element in a token of its own. */
  function Unpacked(f: Field, raws: seq<seq<int>>): seq<Token> {
    seq(|raws|, i requires 0 <= i < |raws| => Token(f.number, ElementWire(f.kind), Raw(raws[i])))
  }

  /** Elements are read as the same list, in order, whether they come in one packed token or in a
      token each. */
  lemma {:induction false} UnpackedReadsAsPacked(env: Env, f: Field, raws: seq<seq<int>>, vs: seq<Value>)
    requires Packable(f.kind)
    ensures FoldCell(env, Repeated(f), Unpacked(f, raws), Many(vs)) ==
            ReadCell(env, Repeated(f), Token(f.number, Length, Packed(raws)), Many(vs))
  {
    hide DecodeScalar, FoldCell;
    if raws == [] {
      NoTokens(env, Repeated(f), Many(vs));
      assert Unpacked(f, raws) == [] && vs + [] == vs;
    } else {
      var n := |raws| - 1;
      var t := Token(f.number, ElementWire(f.kind), Raw(raws[n]));
      UnpackedReadsAsPacked(env, f, raws[..n], vs);
      assert Unpacked(f, raws) == Unpacked(f, raws[..n]) + [t];
      FoldSnoc(env, Repeated(f), Unpacked(f, raws[..n]), t, Many(vs));
      match (DecodeAll(env, f.kind, raws[..n]), DecodeScalar(env, f.kind, raws[n])) {
        case (Ok(ws), Ok(w)) => Assoc(vs, ws, [w]);
        case _ =>
      }
    }
  }

  lemma NoTokens(env: Env, c: Cell, cv: CellVal)
    ensures FoldCell(env, c, [], cv) == Ok(cv)
  {
  }
}
