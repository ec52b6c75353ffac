/**
  * What reading a message depends on: for each cell, the tokens of that cell in order, and
  * nothing else.  Unknown fields do not matter at any depth, nor does the interleaving of
  * tokens that belong to different cells.
  */
module ProtoOrder {
  import opened Wrappers
  import opened Sequences
  import opened Descriptors
  import opened Proto

  /** The tokens of cell `c`, in order. */
  function Project(cells: seq<Cell>, ts: seq<Token>, c: nat): seq<Token> {
    if ts == [] then []
    else
      var t := ts[|ts| - 1];
      Project(cells, ts[..|ts| - 1], c) + (if CellIndex(cells, t.number) == c then [t] else [])
  }

  /** One cell reading its own tokens. */
  function FoldCell(env: Env, c: Cell, ts: seq<Token>, cv: CellVal): Result<CellVal> {
    if ts == [] then Ok(cv)
    else
      match FoldCell(env, c, ts[..|ts| - 1], cv)
      case Err => Err
      case Ok(cur) => ReadCell(env, c, ts[|ts| - 1], cur)
  }

  /** All cells reading their tokens side by side. */
  ghost predicate AllFold(env: Env, cells: seq<Cell>, ts: seq<Token>, cvs: seq<CellVal>, r: Result<seq<CellVal>>)
    requires |cvs| == |cells|
  {
    match r
    case Ok(out) =>
      |out| == |cells| &&
      forall c :: 0 <= c < |cells| ==> FoldCell(env, cells[c], Project(cells, ts, c), cvs[c]) == Ok(out[c])
    case Err =>
      exists c :: 0 <= c < |cells| && FoldCell(env, cells[c], Project(cells, ts, c), cvs[c]).Err?
  }

  lemma FoldSnoc(env: Env, c: Cell, ts: seq<Token>, t: Token, cv: CellVal)
    ensures FoldCell(env, c, ts + [t], cv) ==
            (match FoldCell(env, c, ts, cv) case Err => Err case Ok(cur) => ReadCell(env, c, t, cur))
  {
    assert (ts + [t])[..|ts|] == ts;
  }

  /** Reading a message is reading its cells side by side. */
  lemma {:induction false} ReadIsProduct(env: Env, cells: seq<Cell>, ts: seq<Token>, cvs: seq<CellVal>)
    requires |cvs| == |cells|
    ensures AllFold(env, cells, ts, cvs, ReadCells(env, cells, ts, cvs))
  {
    if ts != [] {
      var rest, t := ts[..|ts| - 1], ts[|ts| - 1];
      ReadIsProduct(env, cells, rest, cvs);
      var i := CellIndex(cells, t.number);
      forall c | 0 <= c < |cells|
        ensures FoldCell(env, cells[c], Project(cells, ts, c), cvs[c]) ==
                (if c == i then
                   (match FoldCell(env, cells[c], Project(cells, rest, c), cvs[c])
                    case Err => Err case Ok(cur) => ReadCell(env, cells[c], t, cur))
                 else FoldCell(env, cells[c], Project(cells, rest, c), cvs[c]))
      {
        if c == i { FoldSnoc(env, cells[c], Project(cells, rest, c), t, cvs[c]); }
        else { assert Project(cells, ts, c) == Project(cells, rest, c); }
      }
      match ReadCells(env, cells, rest, cvs)
      case Err =>
        var c :| 0 <= c < |cells| && FoldCell(env, cells[c], Project(cells, rest, c), cvs[c]).Err?;
        assert FoldCell(env, cells[c], Project(cells, ts, c), cvs[c]).Err?;
      case Ok(cur) =>
        if i < |cells| && ReadCell(env, cells[i], t, cur[i]).Err? {
          assert FoldCell(env, cells[i], Project(cells, ts, i), cvs[i]).Err?;
        }
    }
  }

  /** A result is determined by the folds of the cells. */
  lemma ProductUnique(env: Env, cells: seq<Cell>, ts1: seq<Token>, ts2: seq<Token>, cvs: seq<CellVal>,
                      r1: Result<seq<CellVal>>, r2: Result<seq<CellVal>>)
    requires |cvs| == |cells| && AllFold(env, cells, ts1, cvs, r1) && AllFold(env, cells, ts2, cvs, r2)
    requires forall c :: 0 <= c < |cells| ==>
               FoldCell(env, cells[c], Project(cells, ts1, c), cvs[c]) ==
                 FoldCell(env, cells[c], Project(cells, ts2, c), cvs[c])
    ensures r1 == r2
  {
    if r1.Ok? && r2.Ok? {
      forall c | 0 <= c < |cells| ensures r1.value[c] == r2.value[c] {
        assert FoldCell(env, cells[c], Project(cells, ts1, c), cvs[c]) == Ok(r1.value[c]);
        assert FoldCell(env, cells[c], Project(cells, ts2, c), cvs[c]) == Ok(r2.value[c]);
      }
      assert r1.value == r2.value;
    }
  }

  /** Token sequences with the same tokens per cell read the same. */
  lemma SameProjectionsReadSame(env: Env, cells: seq<Cell>, ts1: seq<Token>, ts2: seq<Token>, cvs: seq<CellVal>)
    requires |cvs| == |cells|
    requires forall c :: 0 <= c < |cells| ==> Project(cells, ts1, c) == Project(cells, ts2, c)
    ensures ReadCells(env, cells, ts1, cvs) == ReadCells(env, cells, ts2, cvs)
  {
    ReadIsProduct(env, cells, ts1, cvs);
    ReadIsProduct(env, cells, ts2, cvs);
    ProductUnique(env, cells, ts1, ts2, cvs, ReadCells(env, cells, ts1, cvs), ReadCells(env, cells, ts2, cvs));
  }

  // ---------------------------------------------------------------------------------------
  // Canonical token sequences
  // ---------------------------------------------------------------------------------------

  /** The cells that the body of a token of this cell is read with, if it is a message or a map entry. */
  function InnerCells(env: Env, c: Cell, number: int): Option<seq<Cell>> {
    match c
    case Singular(f) => KindCells(env, f.kind)
    case OneOf(alts) =>
      var a := AltIndex(alts, number);
      if a == |alts| then None else KindCells(env, alts[a].kind)
    case Repeated(f) => KindCells(env, f.kind)
    case MapOf(f, key) => Some(EntryCells(key, f.kind))
  }

  function KindCells(env: Env, k: Kind): Option<seq<Cell>> {
    if k.MessageK? then Some(env.schema.Cells(k.message)) else None
  }

  /** The token with a canonical body. */
  function CanonToken(env: Env, c: Cell, t: Token): Token
    decreases t, 1
  {
    match InnerCells(env, c, t.number)
    case None => t
    case Some(inner) => if t.payload.Sub? then t.(payload := Sub(Canon(env, inner, t.payload.tokens))) else t
  }

  /** Unknown fields dropped and bodies made canonical. */
  function Known(env: Env, cells: seq<Cell>, ts: seq<Token>): seq<Token>
    decreases ts, 0
  {
    if ts == [] then []
    else
      var t := ts[|ts| - 1];
      var i := CellIndex(cells, t.number);
      Known(env, cells, ts[..|ts| - 1]) + (if i < |cells| then [CanonToken(env, cells[i], t)] else [])
  }

  /** The tokens of cells 0 to `n`, cell by cell. */
  function Grouped(cells: seq<Cell>, ts: seq<Token>, n: nat): seq<Token> {
    if n == 0 then [] else Grouped(cells, ts, n - 1) + Project(cells, ts, n - 1)
  }

  /** Known fields only, cell by cell, at every depth. */
  function Canon(env: Env, cells: seq<Cell>, ts: seq<Token>): seq<Token>
    decreases ts, 1
  {
    Grouped(cells, Known(env, cells, ts), |cells|)
  }

  lemma ProjectSnoc(cells: seq<Cell>, ts: seq<Token>, t: Token, c: nat)
    ensures Project(cells, ts + [t], c) == Project(cells, ts, c) + (if CellIndex(cells, t.number) == c then [t] else [])
  {
    hide CellIndex, Numbers;
    assert (ts + [t])[..|ts|] == ts;
  }

  lemma {:induction false} ProjectConcat(cells: seq<Cell>, ts1: seq<Token>, ts2: seq<Token>, c: nat)
    ensures Project(cells, ts1 + ts2, c) == Project(cells, ts1, c) + Project(cells, ts2, c)
  {
    hide CellIndex, Numbers;
    if ts2 == [] {
      assert ts1 + ts2 == ts1;
    } else {
      hide Project;
      var rest, t := ts2[..|ts2| - 1], ts2[|ts2| - 1];
      ProjectConcat(cells, ts1, rest, c);
      SplitLast(ts2);
      Assoc(ts1, rest, [t]);
      ProjectSnoc(cells, ts1 + rest, t, c);
      ProjectSnoc(cells, rest, t, c);
      Assoc(Project(cells, ts1, c), Project(cells, rest, c), if CellIndex(cells, t.number) == c then [t] else []);
    }
  }

  lemma {:induction false} ProjectProject(cells: seq<Cell>, ts: seq<Token>, c: nat, d: nat)
    ensures Project(cells, Project(cells, ts, c), d) == if c == d then Project(cells, ts, c) else []
  {
    hide CellIndex, Numbers;
    if ts != [] {
      hide Project;
      var rest, t := ts[..|ts| - 1], ts[|ts| - 1];
      ProjectProject(cells, rest, c, d);
      SplitLast(ts);
      ProjectSnoc(cells, rest, t, c);
      ProjectSnoc(cells, Project(cells, rest, c), t, d);
      assert Project(cells, rest, c) + [] == Project(cells, rest, c);
    }
  }

  lemma {:induction false} ProjectGrouped(cells: seq<Cell>, ts: seq<Token>, n: nat, c: nat)
    ensures Project(cells, Grouped(cells, ts, n), c) == if c < n then Project(cells, ts, c) else []
  {
    if n > 0 {
      hide Project, Grouped;
      ProjectGrouped(cells, ts, n - 1, c);
      GroupedStep(cells, ts, n, c);
    }
  }

  lemma GroupedStep(cells: seq<Cell>, ts: seq<Token>, n: nat, c: nat)
    requires n > 0
    ensures Project(cells, Grouped(cells, ts, n), c) ==
            Project(cells, Grouped(cells, ts, n - 1), c) + (if c == n - 1 then Project(cells, ts, c) else [])
  {
    hide Project;
    ProjectConcat(cells, Grouped(cells, ts, n - 1), Project(cells, ts, n - 1), c);
    ProjectProject(cells, ts, n - 1, c);
  }

  /** Making a token canonical does not change what it is read as. */
  lemma {:induction false} CanonTokenReadsSame(env: Env, c: Cell, t: Token, cv: CellVal)
    ensures ReadCell(env, c, CanonToken(env, c, t), cv) == ReadCell(env, c, t, cv)
    ensures CanonToken(env, c, t).number == t.number
    decreases t, 1
  {
    hide Canon, ReadCells, DecodeAll, DecodeScalar, DefaultCells;
    match InnerCells(env, c, t.number)
    case None =>
    case Some(inner) =>
      if t.payload.Sub? {
        CanonReadsSame(env, inner, t.payload.tokens, DefaultCells(env.schema, env.codec, inner));
      }
  }

  lemma {:induction false} KnownReadsSame(env: Env, cells: seq<Cell>, ts: seq<Token>, cvs: seq<CellVal>)
    requires |cvs| == |cells|
    ensures ReadCells(env, cells, Known(env, cells, ts), cvs) == ReadCells(env, cells, ts, cvs)
    decreases ts, 0
  {
    if ts != [] {
      var rest, t := ts[..|ts| - 1], ts[|ts| - 1];
      KnownReadsSame(env, cells, rest, cvs);
      var i := CellIndex(cells, t.number);
      var known := Known(env, cells, rest);
      if i == |cells| {
        assert Known(env, cells, ts) == known;
      } else {
        var t' := CanonToken(env, cells[i], t);
        assert Known(env, cells, ts) == known + [t'];
        assert (known + [t'])[..|known|] == known;
        match ReadCells(env, cells, rest, cvs)
        case Err =>
        case Ok(cur) => CanonTokenReadsSame(env, cells[i], t, cur[i]);
        CanonTokenReadsSame(env, cells[i], t, cvs[i]);
      }
    }
  }

  /** Reading depends on the canonical form only. */
  lemma {:induction false} CanonReadsSame(env: Env, cells: seq<Cell>, ts: seq<Token>, cvs: seq<CellVal>)
    requires |cvs| == |cells|
    ensures ReadCells(env, cells, Canon(env, cells, ts), cvs) == ReadCells(env, cells, ts, cvs)
    decreases ts, 1
  {
    KnownReadsSame(env, cells, ts, cvs);
    var known := Known(env, cells, ts);
    forall c | 0 <= c < |cells| ensures Project(cells, Grouped(cells, known, |cells|), c) == Project(cells, known, c) {
      ProjectGrouped(cells, known, |cells|, c);
    }
    SameProjectionsReadSame(env, cells, Canon(env, cells, ts), known, cvs);
  }

  // ---------------------------------------------------------------------------------------
  // Moves that keep the canonical form, at any depth
  // ---------------------------------------------------------------------------------------

  lemma KnownSnoc(env: Env, cells: seq<Cell>, ts: seq<Token>, t: Token)
    ensures Known(env, cells, ts + [t]) == Known(env, cells, ts) + KnownToken(env, cells, t)
  {
    hide CellIndex, Numbers, CanonToken;
    assert (ts + [t])[..|ts|] == ts;
  }

  lemma KnownOne(env: Env, cells: seq<Cell>, t: Token)
    ensures Known(env, cells, [t]) == KnownToken(env, cells, t)
  {
    KnownSnoc(env, cells, [], t);
    hide CanonToken, CellIndex;
    assert [] + [t] == [t] && Known(env, cells, []) == [];
  }

  lemma ProjectOne(cells: seq<Cell>, t: Token, c: nat)
    ensures Project(cells, [t], c) == if CellIndex(cells, t.number) == c then [t] else []
  {
    ProjectSnoc(cells, [], t, c);
    hide CellIndex;
    assert [] + [t] == [t] && Project(cells, [], c) == [];
  }

  /** What a single token becomes. */
  function KnownToken(env: Env, cells: seq<Cell>, t: Token): seq<Token> {
    var i := CellIndex(cells, t.number);
    if i < |cells| then [CanonToken(env, cells[i], t)] else []
  }

  lemma {:induction false} KnownConcat(env: Env, cells: seq<Cell>, ts1: seq<Token>, ts2: seq<Token>)
    ensures Known(env, cells, ts1 + ts2) == Known(env, cells, ts1) + Known(env, cells, ts2)
    decreases ts2
  {
    hide KnownToken;
    if ts2 == [] {
      hide CellIndex, CanonToken;
      assert ts1 + ts2 == ts1;
    } else {
      hide Known;
      var rest, t := ts2[..|ts2| - 1], ts2[|ts2| - 1];
      KnownConcat(env, cells, ts1, rest);
      SplitLast(ts2);
      Assoc(ts1, rest, [t]);
      KnownSnoc(env, cells, ts1 + rest, t);
      KnownSnoc(env, cells, rest, t);
      Assoc(Known(env, cells, ts1), Known(env, cells, rest), KnownToken(env, cells, t));
    }
  }

  lemma {:induction false} GroupedSame(cells: seq<Cell>, ts1: seq<Token>, ts2: seq<Token>, n: nat)
    requires forall c :: 0 <= c < n ==> Project(cells, ts1, c) == Project(cells, ts2, c)
    ensures Grouped(cells, ts1, n) == Grouped(cells, ts2, n)
  {
    if n > 0 { GroupedSame(cells, ts1, ts2, n - 1); }
  }

  /** A field the message does not declare can be inserted anywhere. */
  lemma UnknownFieldIgnored(env: Env, cells: seq<Cell>, a: seq<Token>, t: Token, b: seq<Token>)
    requires CellIndex(cells, t.number) == |cells|
    ensures Canon(env, cells, a + [t] + b) == Canon(env, cells, a + b)
  {
    hide Known, Canon, CanonToken;
    MiddleKnown(env, cells, a, t, b);
    KnownConcat(env, cells, a, b);
    assert Known(env, cells, a) + [] == Known(env, cells, a);
    CanonOfKnown(env, cells, a + [t] + b, a + b);
  }

  /** Neighbouring tokens of different cells can change places. */
  lemma NeighboursCommute(env: Env, cells: seq<Cell>, a: seq<Token>, t1: Token, t2: Token, b: seq<Token>)
    requires CellIndex(cells, t1.number) != CellIndex(cells, t2.number)
    ensures Canon(env, cells, a + [t1, t2] + b) == Canon(env, cells, a + [t2, t1] + b)
  {
    hide Known, CellIndex, Numbers, CanonToken, Project;
    forall c | 0 <= c < |cells|
      ensures Project(cells, Known(env, cells, a + [t1, t2] + b), c) ==
              Project(cells, Known(env, cells, a + [t2, t1] + b), c)
    {
      MiddleProjection(env, cells, a, t1, t2, b, c);
      MiddleProjection(env, cells, a, t2, t1, b, c);
    }
    GroupedSame(cells, Known(env, cells, a + [t1, t2] + b), Known(env, cells, a + [t2, t1] + b), |cells|);
  }

  lemma MiddleProjection(env: Env, cells: seq<Cell>, a: seq<Token>, t1: Token, t2: Token, b: seq<Token>, c: nat)
    requires c < |cells|
    ensures Project(cells, Known(env, cells, a + [t1, t2] + b), c) ==
            Project(cells, Known(env, cells, a), c) + Own(env, cells, t1, c) + Own(env, cells, t2, c) +
            Project(cells, Known(env, cells, b), c)
  {
    hide Project, Known, Own, CellIndex, CanonToken;
    assert [t1, t2] == [t1] + [t2];
    KnownConcat(env, cells, a + [t1, t2], b);
    KnownConcat(env, cells, a, [t1, t2]);
    KnownConcat(env, cells, [t1], [t2]);
    ProjectConcat(cells, Known(env, cells, a + [t1, t2]), Known(env, cells, b), c);
    ProjectConcat(cells, Known(env, cells, a), Known(env, cells, [t1, t2]), c);
    ProjectConcat(cells, Known(env, cells, [t1]), Known(env, cells, [t2]), c);
    OwnIsProjection(env, cells, t1, c);
    OwnIsProjection(env, cells, t2, c);
  }

  /** What a single token contributes to cell `c`. */
  function Own(env: Env, cells: seq<Cell>, t: Token, c: nat): seq<Token>
    requires c < |cells|
  {
    if CellIndex(cells, t.number) == c then [CanonToken(env, cells[c], t)] else []
  }

  lemma OwnIsProjection(env: Env, cells: seq<Cell>, t: Token, c: nat)
    requires c < |cells|
    ensures Project(cells, Known(env, cells, [t]), c) == Own(env, cells, t, c)
  {
    hide Known, InnerCells, Canon, Numbers;
    var i := CellIndex(cells, t.number);
    KnownOne(env, cells, t);
    if i < |cells| {
      ProjectOne(cells, CanonToken(env, cells[i], t), c);
    }
  }

  /** Bodies with the same canonical form can replace each other. */
  lemma BodyReplaced(env: Env, cells: seq<Cell>, a: seq<Token>, t: Token, body: seq<Token>, b: seq<Token>)
    requires t.payload.Sub?
    requires var i := CellIndex(cells, t.number);
             i < |cells| ==>
               var inner := InnerCells(env, cells[i], t.number);
               inner.Some? && Canon(env, inner.value, t.payload.tokens) == Canon(env, inner.value, body)
    ensures Canon(env, cells, a + [t] + b) == Canon(env, cells, a + [t.(payload := Sub(body))] + b)
  {
    hide Known, Canon, Grouped, InnerCells, Numbers;
    var t' := t.(payload := Sub(body));
    KnownOne(env, cells, t);
    KnownOne(env, cells, t');
    MiddleKnown(env, cells, a, t, b);
    MiddleKnown(env, cells, a, t', b);
    CanonOfKnown(env, cells, a + [t] + b, a + [t'] + b);
  }

  lemma MiddleKnown(env: Env, cells: seq<Cell>, a: seq<Token>, t: Token, b: seq<Token>)
    ensures Known(env, cells, a + [t] + b) == Known(env, cells, a) + KnownToken(env, cells, t) + Known(env, cells, b)
  {
    hide Known, KnownToken;
    KnownConcat(env, cells, a + [t], b);
    KnownSnoc(env, cells, a, t);
  }

  lemma CanonOfKnown(env: Env, cells: seq<Cell>, ts1: seq<Token>, ts2: seq<Token>)
    requires Known(env, cells, ts1) == Known(env, cells, ts2)
    ensures Canon(env, cells, ts1) == Canon(env, cells, ts2)
  {
    hide Known, Grouped;
  }

  /** Messages with the same canonical tokens are read as the same value. */
  lemma SameCanonSameMessage(env: Env, name: string, ts1: seq<Token>, ts2: seq<Token>)
    requires Canon(env, env.schema.Cells(name), ts1) == Canon(env, env.schema.Cells(name), ts2)
    ensures FromProto(env, name, ts1) == FromProto(env, name, ts2)
  {
    var cells := env.schema.Cells(name);
    CanonReadsSame(env, cells, ts1, DefaultCells(env.schema, env.codec, cells));
    CanonReadsSame(env, cells, ts2, DefaultCells(env.schema, env.codec, cells));
  }
}
