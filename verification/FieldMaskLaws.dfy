/**
  * What applying a field path promises: the selected part comes from the update, everything off
  * the path stays, and applications at paths that part ways in different cells commute.
  */
module FieldMaskLaws {
  import opened Wrappers
  import opened Descriptors
  import opened FieldMask

  // ---------------------------------------------------------------------------------------
  // On the path
  // ---------------------------------------------------------------------------------------

  ghost predicate EmptyLeaf(l: Leaf) {
    l.Part? ==> (l.cv.Many? ==> l.cv.vs == []) && (l.cv.Table? ==> l.cv.m == map[])
  }

  /** Lists and maps inside a default message are empty. */
  lemma {:induction false} DefaultLeafEmpty(s: Schema, codec: Codec, k: Kind, path: seq<string>)
    ensures EmptyLeaf(GetField(s, codec, k, path, DefaultKind(s, codec, k)))
    decreases path
  {
    if k.MessageK? && path != [] {
      var cells := s.Cells(k.message);
      var k' := MessageK(k.message, false);
      var d := DefaultKind(s, codec, k');
      assert Deref(s, codec, k, DefaultKind(s, codec, k)) == d;
      match Find(cells, path[0])
      case None =>
      case Some(p) =>
        var c := cells[p.cell];
        assert d.cells[p.cell] == if s.CellRank(c) < s.Rank(k') then DefaultCell(s, codec, c) else Unset;
        assert GetField(s, codec, k, path, DefaultKind(s, codec, k)) ==
          GetCell(s, codec, c, p.alt, path[1..], d.cells[p.cell]);
        if c.Singular? { DefaultLeafEmpty(s, codec, c.f.kind, path[1..]); }
    }
  }

  /** After a successful application the path selects what the update held there, with lists
      appended and maps merged. */
  lemma {:induction false} PathComesFromUpdate(s: Schema, codec: Codec, mv: Moves, cells: seq<Cell>, path: seq<string>,
                                               self: seq<CellVal>, update: seq<CellVal>)
    requires |self| == |cells| && |update| == |cells| && mv.Good()
    ensures var r := Apply(s, codec, mv, cells, path, self, update);
            r.Ok? ==> Get(s, codec, cells, path, r.value.0) ==
                      Merged(Get(s, codec, cells, path, self), Get(s, codec, cells, path, update))
    decreases path, 2
  {
    if path != [] {
      match Find(cells, path[0])
      case None =>
      case Some(p) => CellComesFromUpdate(s, codec, mv, cells[p.cell], p.alt, path[1..], self[p.cell], update[p.cell]);
    }
  }

  lemma {:induction false} CellComesFromUpdate(s: Schema, codec: Codec, mv: Moves, c: Cell, alt: nat, path: seq<string>,
                                               sc: CellVal, uc: CellVal)
    requires mv.Good() && (c.OneOf? ==> alt < |c.alts|)
    ensures var r := ApplyCell(s, codec, mv, c, alt, path, sc, uc);
            r.Ok? ==> GetCell(s, codec, c, alt, path, r.value.0) ==
                      Merged(GetCell(s, codec, c, alt, path, sc), GetCell(s, codec, c, alt, path, uc))
    decreases path, 4
  {
    match c
    case Repeated(_) =>
    case MapOf(_, _) =>
    case Singular(f) =>
      if sc.One? && uc.One? { FieldComesFromUpdate(s, codec, mv, f.kind, path, sc.v, uc.v); }
    case OneOf(alts) =>
      if uc.Alt? && uc.i == alt {
        var k := alts[alt].kind;
        if sc.Alt? && sc.i == alt {
          FieldComesFromUpdate(s, codec, mv, k, path, sc.v, uc.v);
        } else {
          FieldComesFromUpdate(s, codec, mv, k, path, DefaultKind(s, codec, k), uc.v);
          DefaultLeafEmpty(s, codec, k, path);
        }
      }
  }

  lemma {:induction false} FieldComesFromUpdate(s: Schema, codec: Codec, mv: Moves, k: Kind, path: seq<string>,
                                                v: Value, u: Value)
    requires mv.Good()
    ensures var r := ApplyField(s, codec, mv, k, path, v, u);
            r.Ok? ==> GetField(s, codec, k, path, r.value.0) ==
                      Merged(GetField(s, codec, k, path, v), GetField(s, codec, k, path, u))
    decreases path, 3
  {
    if k.MessageK? {
      var cells := s.Cells(k.message);
      if k.ptr && v.Null? && u.Null? {
        DefaultLeafEmpty(s, codec, k, path);
      } else {
        var v', u' := Deref(s, codec, k, v), Deref(s, codec, k, u);
        if v'.Msg? && u'.Msg? && |v'.cells| == |cells| && |u'.cells| == |cells| {
          PathComesFromUpdate(s, codec, mv, cells, path, v'.cells, u'.cells);
        }
      }
    }
  }

  // ---------------------------------------------------------------------------------------
  // Off the path
  // ---------------------------------------------------------------------------------------

  /** The two messages agree on everything off the path.  On it, they may differ where the path
      ends and in which alternative a oneof holds; a null pointer counts as a default message. */
  ghost predicate SameOff(s: Schema, codec: Codec, cells: seq<Cell>, path: seq<string>, m: seq<CellVal>,
                          m': seq<CellVal>)
    requires |m| == |cells| && |m'| == |cells|
    decreases path, 2
  {
    path == [] ||
    match Find(cells, path[0])
    case None => m == m'
    case Some(p) =>
      && (forall j :: 0 <= j < |cells| && j != p.cell ==> m'[j] == m[j])
      && CellSameOff(s, codec, cells[p.cell], p.alt, path[1..], m[p.cell], m'[p.cell])
  }

  ghost predicate CellSameOff(s: Schema, codec: Codec, c: Cell, alt: nat, path: seq<string>, cv: CellVal, cv': CellVal)
    requires c.OneOf? ==> alt < |c.alts|
    decreases path, 4
  {
    match c
    case Repeated(_) => true
    case MapOf(_, _) => true
    case Singular(f) => cv.One? && cv'.One? && FieldSameOff(s, codec, f.kind, path, cv.v, cv'.v)
    case OneOf(alts) =>
      cv.Alt? && cv.i == alt && cv'.Alt? && cv'.i == alt ==> FieldSameOff(s, codec, alts[alt].kind, path, cv.v, cv'.v)
  }

  ghost predicate FieldSameOff(s: Schema, codec: Codec, k: Kind, path: seq<string>, v: Value, v': Value)
    decreases path, 3
  {
    k.MessageK? && path != [] ==>
      var cells := s.Cells(k.message);
      var d, d' := Deref(s, codec, k, v), Deref(s, codec, k, v');
      d == d' ||
      (d.Msg? && d'.Msg? && |d.cells| == |cells| && |d'.cells| == |cells|
        && SameOff(s, codec, cells, path, d.cells, d'.cells))
  }

  lemma {:induction false} ApplyKeepsOffPath(s: Schema, codec: Codec, mv: Moves, cells: seq<Cell>, path: seq<string>,
                                             self: seq<CellVal>, update: seq<CellVal>)
    requires |self| == |cells| && |update| == |cells| && mv.Good()
    ensures var r := Apply(s, codec, mv, cells, path, self, update);
            r.Ok? ==> SameOff(s, codec, cells, path, self, r.value.0)
    decreases path, 2
  {
    if path != [] {
      match Find(cells, path[0])
      case None =>
      case Some(p) => CellKeepsOffPath(s, codec, mv, cells[p.cell], p.alt, path[1..], self[p.cell], update[p.cell]);
    }
  }

  lemma {:induction false} CellKeepsOffPath(s: Schema, codec: Codec, mv: Moves, c: Cell, alt: nat, path: seq<string>,
                                            sc: CellVal, uc: CellVal)
    requires mv.Good() && (c.OneOf? ==> alt < |c.alts|)
    ensures var r := ApplyCell(s, codec, mv, c, alt, path, sc, uc);
            r.Ok? ==> CellSameOff(s, codec, c, alt, path, sc, r.value.0)
    decreases path, 4
  {
    if c.Singular? && sc.One? && uc.One? {
      FieldKeepsOffPath(s, codec, mv, c.f.kind, path, sc.v, uc.v);
    } else if c.OneOf? && sc.Alt? && sc.i == alt && uc.Alt? && uc.i == alt {
      FieldKeepsOffPath(s, codec, mv, c.alts[alt].kind, path, sc.v, uc.v);
    }
  }

  lemma {:induction false} FieldKeepsOffPath(s: Schema, codec: Codec, mv: Moves, k: Kind, path: seq<string>, v: Value,
                                             u: Value)
    requires mv.Good()
    ensures var r := ApplyField(s, codec, mv, k, path, v, u);
            r.Ok? ==> FieldSameOff(s, codec, k, path, v, r.value.0)
    decreases path, 3
  {
    if k.MessageK? {
      var cells := s.Cells(k.message);
      var v', u' := Deref(s, codec, k, v), Deref(s, codec, k, u);
      if v'.Msg? && u'.Msg? && |v'.cells| == |cells| && |u'.cells| == |cells| {
        ApplyKeepsOffPath(s, codec, mv, cells, path, v'.cells, u'.cells);
      }
    }
  }

  // ---------------------------------------------------------------------------------------
  // What is left of the update
  // ---------------------------------------------------------------------------------------

  /** Lists and maps are left empty. */
  ghost predicate Emptied(before: Leaf, after: Leaf) {
    && (before.Part? && before.cv.Many? ==> after == Part(Many([])))
    && (before.Part? && before.cv.Table? ==> after == Part(Table(map[])))
  }

  /** The update loses what the path selects, and nothing else. */
  lemma {:induction false} UpdateIsMovedOut(s: Schema, codec: Codec, mv: Moves, cells: seq<Cell>, path: seq<string>,
                                            self: seq<CellVal>, update: seq<CellVal>)
    requires |self| == |cells| && |update| == |cells| && mv.Good()
    ensures var r := Apply(s, codec, mv, cells, path, self, update);
            r.Ok? ==>
              && SameOff(s, codec, cells, path, update, r.value.1)
              && Emptied(Get(s, codec, cells, path, update), Get(s, codec, cells, path, r.value.1))
    decreases path, 2
  {
    if path != [] {
      match Find(cells, path[0])
      case None =>
      case Some(p) => CellIsMovedOut(s, codec, mv, cells[p.cell], p.alt, path[1..], self[p.cell], update[p.cell]);
    }
  }

  lemma {:induction false} CellIsMovedOut(s: Schema, codec: Codec, mv: Moves, c: Cell, alt: nat, path: seq<string>,
                                          sc: CellVal, uc: CellVal)
    requires mv.Good() && (c.OneOf? ==> alt < |c.alts|)
    ensures var r := ApplyCell(s, codec, mv, c, alt, path, sc, uc);
            r.Ok? ==>
              && CellSameOff(s, codec, c, alt, path, uc, r.value.1)
              && Emptied(GetCell(s, codec, c, alt, path, uc), GetCell(s, codec, c, alt, path, r.value.1))
              && (c.OneOf? && !(uc.Alt? && uc.i == alt) ==> r.value == (Unset, uc))
    decreases path, 4
  {
    if c.Singular? && sc.One? && uc.One? {
      FieldIsMovedOut(s, codec, mv, c.f.kind, path, sc.v, uc.v);
    } else if c.OneOf? && uc.Alt? && uc.i == alt {
      var k := c.alts[alt].kind;
      var held := sc.Alt? && sc.i == alt;
      FieldIsMovedOut(s, codec, mv, k, path, if held then sc.v else DefaultKind(s, codec, k), uc.v);
    }
  }

  lemma {:induction false} FieldIsMovedOut(s: Schema, codec: Codec, mv: Moves, k: Kind, path: seq<string>, v: Value,
                                           u: Value)
    requires mv.Good()
    ensures var r := ApplyField(s, codec, mv, k, path, v, u);
            r.Ok? ==>
              && FieldSameOff(s, codec, k, path, u, r.value.1)
              && Emptied(GetField(s, codec, k, path, u), GetField(s, codec, k, path, r.value.1))
    decreases path, 3
  {
    if k.MessageK? {
      var cells := s.Cells(k.message);
      var v', u' := Deref(s, codec, k, v), Deref(s, codec, k, u);
      if k.ptr && v.Null? && u.Null? {
        DefaultLeafEmpty(s, codec, k, path);
      } else if v'.Msg? && u'.Msg? && |v'.cells| == |cells| && |u'.cells| == |cells| {
        UpdateIsMovedOut(s, codec, mv, cells, path, v'.cells, u'.cells);
      }
    }
  }

  // ---------------------------------------------------------------------------------------
  // Independent paths
  // ---------------------------------------------------------------------------------------

  /** The message type that both paths go on in, if they name the same singular field or the same
      alternative of a oneof. */
  function SharedMessage(c: Cell, alt: nat, alt': nat): Option<string>
    requires c.OneOf? ==> alt < |c.alts|
  {
    if (c.Singular? || (c.OneOf? && alt == alt')) && FieldOf(c, alt).kind.MessageK?
      then Some(FieldOf(c, alt).kind.message)
    else None
  }

  /** The paths part ways in two different cells, having shared singular messages and alternatives
      of oneofs. */
  ghost predicate Independent(s: Schema, cells: seq<Cell>, p: seq<string>, q: seq<string>)
    decreases p
  {
    p != [] && q != [] &&
    var fp, fq := Find(cells, p[0]), Find(cells, q[0]);
    fp.Some? && fq.Some? &&
    (if fp.value.cell != fq.value.cell then true
     else
       var shared := SharedMessage(cells[fp.value.cell], fp.value.alt, fq.value.alt);
       shared.Some? && Independent(s, s.Cells(shared.value), p[1..], q[1..]))
  }

  /** One application after another. */
  function Then(s: Schema, codec: Codec, mv: Moves, cells: seq<Cell>, path: seq<string>,
                r: Result<(seq<CellVal>, seq<CellVal>)>): Result<(seq<CellVal>, seq<CellVal>)>
    requires mv.Good() && (r.Ok? ==> |r.value.0| == |cells| && |r.value.1| == |cells|)
  {
    match r
    case Err => Err
    case Ok((m, u)) => Apply(s, codec, mv, cells, path, m, u)
  }

  /** Two applications inside one message field. */
  function FieldTwice(s: Schema, codec: Codec, mv: Moves, k: Kind, p: seq<string>, q: seq<string>, v: Value,
                      u: Value): Result<(Value, Value)>
    requires mv.Good()
  {
    match ApplyField(s, codec, mv, k, p, v, u)
    case Err => Err
    case Ok((v', u')) => ApplyField(s, codec, mv, k, q, v', u')
  }

  lemma FieldThen(s: Schema, codec: Codec, mv: Moves, k: Kind, p: seq<string>, q: seq<string>, v: Value, u: Value)
    requires mv.Good() && k.MessageK? && p != [] && q != []
    ensures var cells := s.Cells(k.message);
            var d, e := Deref(s, codec, k, v), Deref(s, codec, k, u);
            FieldTwice(s, codec, mv, k, p, q, v, u) ==
            if k.ptr && v.Null? && u.Null? then Ok((v, u))
            else if !d.Msg? || !e.Msg? || |d.cells| != |cells| || |e.cells| != |cells| then Err
            else
              match Then(s, codec, mv, cells, q, Apply(s, codec, mv, cells, p, d.cells, e.cells))
              case Err => Err
              case Ok((m, n)) => Ok((Msg(m), Msg(n)))
  {
  }

  /** Two applications in one cell. */
  function CellTwice(s: Schema, codec: Codec, mv: Moves, c: Cell, alt: nat, p: seq<string>, alt': nat, q: seq<string>,
                     sc: CellVal, uc: CellVal): Result<(CellVal, CellVal)>
    requires mv.Good() && (c.OneOf? ==> alt < |c.alts| && alt' < |c.alts|)
  {
    match ApplyCell(s, codec, mv, c, alt, p, sc, uc)
    case Err => Err
    case Ok((a, b)) => ApplyCell(s, codec, mv, c, alt', q, a, b)
  }

  /** Two applications that start in one cell. */
  lemma CellThen(s: Schema, codec: Codec, mv: Moves, cells: seq<Cell>, p: seq<string>, q: seq<string>,
                 self: seq<CellVal>, update: seq<CellVal>)
    requires |self| == |cells| && |update| == |cells| && mv.Good() && p != [] && q != []
    requires var fp, fq := Find(cells, p[0]), Find(cells, q[0]);
             fp.Some? && fq.Some? && fp.value.cell == fq.value.cell
    ensures var fp, fq := Find(cells, p[0]).value, Find(cells, q[0]).value;
            var i := fp.cell;
            Then(s, codec, mv, cells, q, Apply(s, codec, mv, cells, p, self, update)) ==
            match CellTwice(s, codec, mv, cells[i], fp.alt, p[1..], fq.alt, q[1..], self[i], update[i])
            case Err => Err
            case Ok((a, b)) => Ok((self[i := a], update[i := b]))
  {
    hide ApplyCell;
    var fp, fq := Find(cells, p[0]).value, Find(cells, q[0]).value;
    var i := fp.cell;
    match ApplyCell(s, codec, mv, cells[i], fp.alt, p[1..], self[i], update[i]) {
      case Err =>
      case Ok((a, b)) =>
        var m, n := self[i := a], update[i := b];
        match ApplyCell(s, codec, mv, cells[i], fq.alt, q[1..], a, b) {
          case Err =>
          case Ok((a', b')) => assert m[i := a'] == self[i := a'] && n[i := b'] == update[i := b'];
        }
    }
  }

  /** Where the two applications share a message, they are two applications inside it. */
  lemma SharedTwice(s: Schema, codec: Codec, mv: Moves, c: Cell, alt: nat, p: seq<string>, q: seq<string>,
                    sc: CellVal, uc: CellVal)
    requires mv.Good() && (c.Singular? || (c.OneOf? && alt < |c.alts|))
    ensures var k := FieldOf(c, alt).kind;
            CellTwice(s, codec, mv, c, alt, p, alt, q, sc, uc) ==
            if c.Singular? then
              if !sc.One? || !uc.One? then Err
              else
                match FieldTwice(s, codec, mv, k, p, q, sc.v, uc.v)
                case Err => Err
                case Ok((v, u)) => Ok((One(v), One(u)))
            else if !(uc.Alt? && uc.i == alt) then Ok((Unset, uc))
            else
              var held := sc.Alt? && sc.i == alt;
              if k.MessageK? && k.ptr && !held then Err
              else
                match FieldTwice(s, codec, mv, k, p, q, if held then sc.v else DefaultKind(s, codec, k), uc.v)
                case Err => Err
                case Ok((v, u)) => Ok((Alt(alt, v), Alt(alt, u)))
  {
    hide ApplyField;
  }

  /** Two applications that start in different cells. */
  lemma CellsApart(s: Schema, codec: Codec, mv: Moves, cells: seq<Cell>, p: seq<string>, q: seq<string>,
                   self: seq<CellVal>, update: seq<CellVal>)
    requires |self| == |cells| && |update| == |cells| && mv.Good() && p != [] && q != []
    requires var fp, fq := Find(cells, p[0]), Find(cells, q[0]); fp.Some? && fq.Some? && fp.value.cell != fq.value.cell
    ensures var fp, fq := Find(cells, p[0]).value, Find(cells, q[0]).value;
            var i, j := fp.cell, fq.cell;
            Then(s, codec, mv, cells, q, Apply(s, codec, mv, cells, p, self, update)) ==
            match (ApplyCell(s, codec, mv, cells[i], fp.alt, p[1..], self[i], update[i]),
                   ApplyCell(s, codec, mv, cells[j], fq.alt, q[1..], self[j], update[j]))
            case (Ok((a, b)), Ok((c, d))) => Ok((self[i := a][j := c], update[i := b][j := d]))
            case _ => Err
  {
  }

  lemma {:induction false} IndependentPathsCommute(s: Schema, codec: Codec, mv: Moves, cells: seq<Cell>,
                                                   p: seq<string>, q: seq<string>, self: seq<CellVal>,
                                                   update: seq<CellVal>)
    requires |self| == |cells| && |update| == |cells| && mv.Good() && Independent(s, cells, p, q)
    ensures Then(s, codec, mv, cells, q, Apply(s, codec, mv, cells, p, self, update)) ==
            Then(s, codec, mv, cells, p, Apply(s, codec, mv, cells, q, self, update))
    decreases p, 0
  {
    hide ApplyCell, ApplyField;
    var fp, fq := Find(cells, p[0]).value, Find(cells, q[0]).value;
    var i, j := fp.cell, fq.cell;
    if i == j {
      var c, alt := cells[i], fp.alt;
      var k := FieldOf(c, alt).kind;
      CellThen(s, codec, mv, cells, p, q, self, update);
      CellThen(s, codec, mv, cells, q, p, self, update);
      SharedTwice(s, codec, mv, c, alt, p[1..], q[1..], self[i], update[i]);
      SharedTwice(s, codec, mv, c, alt, q[1..], p[1..], self[i], update[i]);
      var v := if c.Singular? then (if self[i].One? then self[i].v else Null)
               else if self[i].Alt? && self[i].i == alt then self[i].v else DefaultKind(s, codec, k);
      if update[i].One? || update[i].Alt? {
        InsideCommutes(s, codec, mv, k, p[1..], q[1..], v, update[i].v);
      }
    } else {
      CellsApart(s, codec, mv, cells, p, q, self, update);
      CellsApart(s, codec, mv, cells, q, p, self, update);
      match (ApplyCell(s, codec, mv, cells[i], fp.alt, p[1..], self[i], update[i]),
             ApplyCell(s, codec, mv, cells[j], fq.alt, q[1..], self[j], update[j]))
      case (Ok((a, b)), Ok((c, d))) =>
        assert self[i := a][j := c] == self[j := c][i := a];
        assert update[i := b][j := d] == update[j := d][i := b];
      case _ =>
    }
  }

  lemma {:induction false} InsideCommutes(s: Schema, codec: Codec, mv: Moves, k: Kind, p: seq<string>, q: seq<string>,
                                          v: Value, u: Value)
    requires mv.Good() && k.MessageK? && Independent(s, s.Cells(k.message), p, q)
    ensures FieldTwice(s, codec, mv, k, p, q, v, u) == FieldTwice(s, codec, mv, k, q, p, v, u)
    decreases p, 1
  {
    FieldThen(s, codec, mv, k, p, q, v, u);
    FieldThen(s, codec, mv, k, q, p, v, u);
    hide Apply, ApplyField, FieldTwice;
    var cells := s.Cells(k.message);
    var d, e := Deref(s, codec, k, v), Deref(s, codec, k, u);
    if d.Msg? && e.Msg? && |d.cells| == |cells| && |e.cells| == |cells| {
      IndependentPathsCommute(s, codec, mv, cells, p, q, d.cells, e.cells);
    }
  }

  // ---------------------------------------------------------------------------------------
  // Different alternatives of one oneof
  // ---------------------------------------------------------------------------------------

  predicate HoldsAlt(cv: CellVal, alt: nat) {
    cv.Alt? && cv.i == alt
  }

  /** Applying the alternative throws, on the target as it is and on an unset target. */
  predicate ThrowsAnyway(s: Schema, codec: Codec, mv: Moves, c: Cell, alt: nat, path: seq<string>, sc: CellVal,
                         uc: CellVal)
    requires mv.Good() && c.OneOf? && alt < |c.alts|
  {
    ApplyCell(s, codec, mv, c, alt, path, sc, uc).Err? && ApplyCell(s, codec, mv, c, alt, path, Unset, uc).Err?
  }

  /** Two paths into different alternatives of one oneof. */
  ghost predicate IntoAlternatives(cells: seq<Cell>, p: seq<string>, q: seq<string>) {
    p != [] && q != [] &&
    var fp, fq := Find(cells, p[0]), Find(cells, q[0]);
    && fp.Some? && fq.Some? && fp.value.cell == fq.value.cell
    && cells[fp.value.cell].OneOf? && fp.value.alt != fq.value.alt
  }

  lemma AlternativesCommute(s: Schema, codec: Codec, mv: Moves, cells: seq<Cell>, p: seq<string>, q: seq<string>,
                            self: seq<CellVal>, update: seq<CellVal>)
    requires |self| == |cells| && |update| == |cells| && mv.Good() && IntoAlternatives(cells, p, q)
    ensures var fp, fq := Find(cells, p[0]).value, Find(cells, q[0]).value;
            var c, sc, uc := cells[fp.cell], self[fp.cell], update[fp.cell];
            Then(s, codec, mv, cells, q, Apply(s, codec, mv, cells, p, self, update)) ==
            Then(s, codec, mv, cells, p, Apply(s, codec, mv, cells, q, self, update))
            <==>
            if HoldsAlt(uc, fp.alt) then ThrowsAnyway(s, codec, mv, c, fp.alt, p[1..], sc, uc)
            else if HoldsAlt(uc, fq.alt) then ThrowsAnyway(s, codec, mv, c, fq.alt, q[1..], sc, uc)
            else true
  {
    CellThen(s, codec, mv, cells, p, q, self, update);
    CellThen(s, codec, mv, cells, q, p, self, update);
    var fp, fq := Find(cells, p[0]).value, Find(cells, q[0]).value;
    var i := fp.cell;
    hide Apply, ApplyField;
    AlternativesTwice(s, codec, mv, cells[i], fp.alt, p[1..], fq.alt, q[1..], self[i], update[i]);
    hide CellTwice, ThrowsAnyway;
    match (CellTwice(s, codec, mv, cells[i], fp.alt, p[1..], fq.alt, q[1..], self[i], update[i]),
           CellTwice(s, codec, mv, cells[i], fq.alt, q[1..], fp.alt, p[1..], self[i], update[i]))
    case (Ok((a, b)), Ok((a', b'))) =>
      assert self[i := a][i] == a && self[i := a'][i] == a' && update[i := b][i] == b && update[i := b'][i] == b';
    case _ =>
  }

  lemma AlternativesTwice(s: Schema, codec: Codec, mv: Moves, c: Cell, a: nat, p: seq<string>, b: nat, q: seq<string>,
                          sc: CellVal, uc: CellVal)
    requires mv.Good() && c.OneOf? && a < |c.alts| && b < |c.alts| && a != b
    ensures CellTwice(s, codec, mv, c, a, p, b, q, sc, uc) == CellTwice(s, codec, mv, c, b, q, a, p, sc, uc)
            <==>
            if HoldsAlt(uc, a) then ThrowsAnyway(s, codec, mv, c, a, p, sc, uc)
            else if HoldsAlt(uc, b) then ThrowsAnyway(s, codec, mv, c, b, q, sc, uc)
            else true
  {
    hide ApplyField;
  }

  // ---------------------------------------------------------------------------------------
  // When an application throws
  // ---------------------------------------------------------------------------------------

  /** On the path there is a oneof in which the update holds a pointer and the target holds
      something else or nothing. */
  ghost predicate PointerNotHeld(s: Schema, codec: Codec, cells: seq<Cell>, path: seq<string>, self: seq<CellVal>,
                                 update: seq<CellVal>)
    requires |self| == |cells| && |update| == |cells|
    decreases path, 2
  {
    path != [] &&
    match Find(cells, path[0])
    case None => false
    case Some(p) =>
      var c, sc, uc := cells[p.cell], self[p.cell], update[p.cell];
      match c
      case Repeated(_) => false
      case MapOf(_, _) => false
      case Singular(f) => sc.One? && uc.One? && InsideNotHeld(s, codec, f.kind, path[1..], sc.v, uc.v)
      case OneOf(alts) =>
        var k := alts[p.alt].kind;
        var held := sc.Alt? && sc.i == p.alt;
        uc.Alt? && uc.i == p.alt &&
        ((k.MessageK? && k.ptr && !held) ||
         InsideNotHeld(s, codec, k, path[1..], if held then sc.v else DefaultKind(s, codec, k), uc.v))
  }

  ghost predicate InsideNotHeld(s: Schema, codec: Codec, k: Kind, path: seq<string>, v: Value, u: Value)
    decreases path, 3
  {
    k.MessageK? && !(k.ptr && v.Null? && u.Null?) &&
    var d, e := Deref(s, codec, k, v), Deref(s, codec, k, u);
    d.Msg? && e.Msg? && |d.cells| == |s.Cells(k.message)| == |e.cells| &&
    PointerNotHeld(s, codec, s.Cells(k.message), path, d.cells, e.cells)
  }

  lemma {:induction false} DefaultIsTyped(s: Schema, codec: Codec, k: Kind)
    requires s.WellFormed() && codec.Lawful() && s.GoodKind(k)
    ensures TypedKind(s, codec, k, DefaultKind(s, codec, k))
    decreases s.Rank(k)
  {
    if k.MessageK? && !k.ptr {
      DefaultMessage(s, codec, k.message);
      var cells := s.Cells(k.message);
      var d := DefaultCells(s, codec, cells);
      forall i | 0 <= i < |cells| ensures TypedCell(s, codec, cells[i], d[i]) {
        assert s.CellRank(s.messages[k.message][i]) < s.rank[k.message] + 1;
        assert s.GoodCell(cells[i]);
        if cells[i].Singular? { DefaultIsTyped(s, codec, cells[i].f.kind); }
      }
    }
  }

  lemma DerefIsTyped(s: Schema, codec: Codec, k: Kind, v: Value)
    requires s.WellFormed() && codec.Lawful() && s.GoodKind(k) && k.MessageK? && TypedKind(s, codec, k, v)
    ensures Deref(s, codec, k, v).Msg? && TypedCells(s, codec, s.Cells(k.message), Deref(s, codec, k, v).cells)
    ensures s.GoodCells(s.Cells(k.message))
  {
    DefaultIsTyped(s, codec, MessageK(k.message, false));
    DefaultMessage(s, codec, k.message);
  }

  /** Applying a path throws exactly when such a pointer is on it. */
  lemma {:induction false} ThrowsExactly(s: Schema, codec: Codec, mv: Moves, cells: seq<Cell>, path: seq<string>,
                                         self: seq<CellVal>, update: seq<CellVal>)
    requires s.WellFormed() && codec.Lawful() && mv.Good() && s.GoodCells(cells)
    requires TypedCells(s, codec, cells, self) && TypedCells(s, codec, cells, update)
    ensures Apply(s, codec, mv, cells, path, self, update).Err? <==> PointerNotHeld(s, codec, cells, path, self, update)
    decreases path, 2
  {
    if path != [] {
      match Find(cells, path[0])
      case None =>
      case Some(p) =>
        var c, sc, uc := cells[p.cell], self[p.cell], update[p.cell];
        assert s.GoodCell(c) && TypedCell(s, codec, c, sc) && TypedCell(s, codec, c, uc);
        if c.Singular? {
          InsideThrowsExactly(s, codec, mv, c.f.kind, path[1..], sc.v, uc.v);
        } else if c.OneOf? && uc.Alt? && uc.i == p.alt {
          var k := c.alts[p.alt].kind;
          if sc.Alt? && sc.i == p.alt {
            InsideThrowsExactly(s, codec, mv, k, path[1..], sc.v, uc.v);
          } else {
            DefaultIsTyped(s, codec, k);
            InsideThrowsExactly(s, codec, mv, k, path[1..], DefaultKind(s, codec, k), uc.v);
          }
        }
    }
  }

  lemma {:induction false} InsideThrowsExactly(s: Schema, codec: Codec, mv: Moves, k: Kind, path: seq<string>,
                                               v: Value, u: Value)
    requires s.WellFormed() && codec.Lawful() && mv.Good() && s.GoodKind(k)
    requires TypedKind(s, codec, k, v) && TypedKind(s, codec, k, u)
    ensures ApplyField(s, codec, mv, k, path, v, u).Err? <==> InsideNotHeld(s, codec, k, path, v, u)
    decreases path, 3
  {
    if k.MessageK? {
      DerefIsTyped(s, codec, k, v);
      DerefIsTyped(s, codec, k, u);
      ThrowsExactly(s, codec, mv, s.Cells(k.message), path, Deref(s, codec, k, v).cells, Deref(s, codec, k, u).cells);
    }
  }

  /** On the path there is such a pointer, whether the oneof it starts in is kept or cleared. */
  ghost predicate PointerNeverHeld(s: Schema, codec: Codec, cells: seq<Cell>, path: seq<string>,
                                   self: seq<CellVal>, update: seq<CellVal>, i: nat)
    requires |self| == |cells| && |update| == |cells| && i < |cells|
  {
    && PointerNotHeld(s, codec, cells, path, self, update)
    && PointerNotHeld(s, codec, cells, path, self[i := Unset], update)
  }

  lemma ThrowsAnywayExactly(s: Schema, codec: Codec, mv: Moves, cells: seq<Cell>, path: seq<string>,
                            self: seq<CellVal>, update: seq<CellVal>)
    requires s.WellFormed() && codec.Lawful() && mv.Good() && s.GoodCells(cells)
    requires TypedCells(s, codec, cells, self) && TypedCells(s, codec, cells, update)
    requires path != [] && Find(cells, path[0]).Some? && cells[Find(cells, path[0]).value.cell].OneOf?
    ensures var f := Find(cells, path[0]).value;
            ThrowsAnyway(s, codec, mv, cells[f.cell], f.alt, path[1..], self[f.cell], update[f.cell])
            <==> PointerNeverHeld(s, codec, cells, path, self, update, f.cell)
  {
    var f := Find(cells, path[0]).value;
    var cleared := self[f.cell := Unset];
    assert TypedCells(s, codec, cells, cleared);
    ThrowsExactly(s, codec, mv, cells, path, self, update);
    ThrowsExactly(s, codec, mv, cells, path, cleared, update);
    hide ApplyCell, PointerNotHeld;
  }

  /** Two paths into different alternatives of one oneof commute if and only if the update holds
      neither, or the one it holds leads to a pointer that neither the target nor a cleared target
      holds, so that both orders throw.  Otherwise the order decides whether the target ends up
      holding that alternative or nothing. */
  lemma AlternativesCommuteExactly(s: Schema, codec: Codec, mv: Moves, cells: seq<Cell>, p: seq<string>, q: seq<string>,
                                   self: seq<CellVal>, update: seq<CellVal>)
    requires s.WellFormed() && codec.Lawful() && mv.Good() && s.GoodCells(cells)
    requires TypedCells(s, codec, cells, self) && TypedCells(s, codec, cells, update)
    requires IntoAlternatives(cells, p, q)
    ensures var fp, fq := Find(cells, p[0]).value, Find(cells, q[0]).value;
            var i := fp.cell;
            Then(s, codec, mv, cells, q, Apply(s, codec, mv, cells, p, self, update)) ==
            Then(s, codec, mv, cells, p, Apply(s, codec, mv, cells, q, self, update))
            <==>
            if HoldsAlt(update[i], fp.alt) then PointerNeverHeld(s, codec, cells, p, self, update, i)
            else if HoldsAlt(update[i], fq.alt) then PointerNeverHeld(s, codec, cells, q, self, update, i)
            else true
  {
    AlternativesCommute(s, codec, mv, cells, p, q, self, update);
    hide Apply, ThrowsAnyway, PointerNeverHeld;
    ThrowsAnywayExactly(s, codec, mv, cells, p, self, update);
    ThrowsAnywayExactly(s, codec, mv, cells, q, self, update);
  }

  // ---------------------------------------------------------------------------------------
  // A throwing application
  // ---------------------------------------------------------------------------------------

  function NodeCells(): seq<Cell> {
    [OneOf([Field(1, "next", "next", MessageK("node", true))])]
  }

  /** The failing case at its smallest: the update holds a pointer alternative that the target
      does not hold. */
  lemma UnheldPointerThrows(codec: Codec, mv: Moves)
    requires codec.Lawful() && mv.Good()
    ensures var s := Schema(map["node" := NodeCells()], map["node" := 0]);
            var self, update := [Unset], [Alt(0, Msg([Unset]))];
            && s.WellFormed() && s.GoodCells(NodeCells())
            && TypedCells(s, codec, NodeCells(), self) && TypedCells(s, codec, NodeCells(), update)
            && Apply(s, codec, mv, NodeCells(), ["next"], self, update).Err?
  {
    var s := Schema(map["node" := NodeCells()], map["node" := 0]);
    var cells := NodeCells();
    assert Numbers(cells[0]) == [1];
    assert s.GoodCells(cells);
    assert TypedCell(s, codec, cells[0], Unset);
    assert TypedCells(s, codec, cells, [Unset]);
    assert TypedKind(s, codec, MessageK("node", true), Msg([Unset]));
    assert TypedCell(s, codec, cells[0], Alt(0, Msg([Unset])));
    assert Find(cells, "next") == Some(Place(0, 0));
  }

  // ---------------------------------------------------------------------------------------
  // Two alternatives that do not commute
  // ---------------------------------------------------------------------------------------

  function ChoiceCells(): seq<Cell> {
    [OneOf([Field(1, "x", "x", ScalarK(BoolKind)), Field(2, "y", "y", ScalarK(BoolKind))])]
  }

  /** The update holds `x`: applying `x` and then `y` leaves the target unset, and applying `y` and
      then `x` leaves it holding `x`. */
  lemma AlternativesDoNotCommute(codec: Codec, mv: Moves, v: Scalar)
    requires codec.Lawful() && mv.Good() && codec.valid(BoolKind, v)
    ensures var s := Schema(map["choice" := ChoiceCells()], map["choice" := 0]);
            var cells := ChoiceCells();
            var self, update := [Unset], [Alt(0, Sc(v))];
            var left := Alt(0, mv.scalar(Sc(v)));
            && s.WellFormed() && TypedCells(s, codec, cells, self) && TypedCells(s, codec, cells, update)
            && Then(s, codec, mv, cells, ["y"], Apply(s, codec, mv, cells, ["x"], self, update)) ==
              Ok(([Unset], [left]))
            && Then(s, codec, mv, cells, ["x"], Apply(s, codec, mv, cells, ["y"], self, update)) ==
              Ok(([Alt(0, Sc(v))], [left]))
  {
    var s := Schema(map["choice" := ChoiceCells()], map["choice" := 0]);
    var cells := ChoiceCells();
    assert Numbers(cells[0]) == [1, 2];
    assert s.GoodCells(cells);
    assert TypedCell(s, codec, cells[0], Unset) && TypedCell(s, codec, cells[0], Alt(0, Sc(v)));
    assert AltNamed(cells[0].alts, "x") == 0 && AltNamed(cells[0].alts, "y") == 1;
    assert Find(cells, "x") == Some(Place(0, 0)) && Find(cells, "y") == Some(Place(0, 1));
    var left := Alt(0, mv.scalar(Sc(v)));
    ApplyOnce(s, codec, mv, "x", 0, Unset, Alt(0, Sc(v)));
    ApplyOnce(s, codec, mv, "y", 1, Alt(0, Sc(v)), left);
    ApplyOnce(s, codec, mv, "y", 1, Unset, Alt(0, Sc(v)));
  }

  lemma ApplyOnce(s: Schema, codec: Codec, mv: Moves, name: string, alt: nat, sc: CellVal, uc: CellVal)
    requires mv.Good() && alt < 2 && Find(ChoiceCells(), name) == Some(Place(0, alt))
    ensures Apply(s, codec, mv, ChoiceCells(), [name], [sc], [uc]) ==
            if HoldsAlt(uc, alt) then Ok(([Alt(alt, uc.v)], [Alt(alt, mv.scalar(uc.v))])) else Ok(([Unset], [uc]))
  {
    var cell := if HoldsAlt(uc, alt) then Alt(alt, uc.v) else Unset;
    var left := if HoldsAlt(uc, alt) then Alt(alt, mv.scalar(uc.v)) else uc;
    assert ApplyCell(s, codec, mv, ChoiceCells()[0], alt, [], sc, uc) == Ok((cell, left));
    assert [name][1..] == [];
    assert [sc][0 := cell] == [cell] && [uc][0 := left] == [left];
  }
}
