/**
  * The emitted `apply_field_path_from`: moving the part of an update that a field path selects
  * into a target message.
  */
module FieldMask {
  import opened Wrappers
  import opened Descriptors

  /** What is left in a place that was moved from: unspecified, but still a value of that type. */
  datatype Moves = Moves(message: seq<CellVal> -> seq<CellVal>, scalar: Value -> Value) {
    ghost predicate Good() {
      forall m :: |message(m)| == |m|
    }
  }

  /** A field of a message: the cell it is stored in and, for a oneof, which alternative it is. */
  datatype Place = Place(cell: nat, alt: nat)

  function FieldOf(c: Cell, alt: nat): Field
    requires c.OneOf? ==> alt < |c.alts|
  {
    if c.OneOf? then c.alts[alt] else c.f
  }

  function AltNamed(alts: seq<Field>, name: string): (r: nat)
    ensures r <= |alts|
    ensures r < |alts| ==> alts[r].name == name
    ensures forall i :: 0 <= i < r ==> alts[i].name != name
  {
    FirstField(alts, (f: Field) => f.name == name)
  }

  /** The first field with the given name. */
  function Find(cells: seq<Cell>, name: string): (r: Option<Place>)
    ensures r.Some? ==> r.value.cell < |cells| && (cells[r.value.cell].OneOf? ==>
            r.value.alt < |cells[r.value.cell].alts|)
    ensures r.Some? ==> FieldOf(cells[r.value.cell], r.value.alt).name == name
  {
    if cells == [] then None
    else if !cells[0].OneOf? && cells[0].f.name == name then Some(Place(0, 0))
    else if cells[0].OneOf? && AltNamed(cells[0].alts, name) < |cells[0].alts|
      then Some(Place(0, AltNamed(cells[0].alts, name)))
    else
      match Find(cells[1..], name)
      case None => None
      case Some(p) => Some(Place(p.cell + 1, p.alt))
  }

  /** A null pointer inside a path stands for a default message. */
  function Deref(s: Schema, codec: Codec, k: Kind, v: Value): Value
    requires k.MessageK?
  {
    if k.ptr && v.Null? then DefaultKind(s, codec, MessageK(k.message, false)) else v
  }

  function Apply(s: Schema, codec: Codec, mv: Moves, cells: seq<Cell>, path: seq<string>,
                 self: seq<CellVal>, update: seq<CellVal>): (r: Result<(seq<CellVal>, seq<CellVal>)>)
    requires |self| == |cells| && |update| == |cells| && mv.Good()
    ensures r.Ok? ==> |r.value.0| == |cells| && |r.value.1| == |cells|
    decreases path, 2
  {
    if path == [] then Ok((update, mv.message(update)))
    else
      match Find(cells, path[0])
      case None => Ok((self, update))
      case Some(p) =>
        match ApplyCell(s, codec, mv, cells[p.cell], p.alt, path[1..], self[p.cell], update[p.cell])
        case Err => Err
        case Ok((sc, uc)) => Ok((self[p.cell := sc], update[p.cell := uc]))
  }

  function ApplyCell(s: Schema, codec: Codec, mv: Moves, c: Cell, alt: nat, path: seq<string>,
                     sc: CellVal, uc: CellVal): Result<(CellVal, CellVal)>
    requires mv.Good() && (c.OneOf? ==> alt < |c.alts|)
    decreases path, 4
  {
    match c
    case Repeated(_) =>
      if sc.Many? && uc.Many? then Ok((Many(sc.vs + uc.vs), Many([]))) else Err
    case MapOf(_, _) =>
      if sc.Table? && uc.Table? then Ok((Table(sc.m + uc.m), Table(map[]))) else Err
    case Singular(f) =>
      if !sc.One? || !uc.One? then Err
      else
        (match ApplyField(s, codec, mv, f.kind, path, sc.v, uc.v)
         case Err => Err
         case Ok((v, u)) => Ok((One(v), One(u))))
    case OneOf(alts) =>
      if !(uc.Alt? && uc.i == alt) then Ok((Unset, uc))
      else
        var k := alts[alt].kind;
        var held := sc.Alt? && sc.i == alt;
        // Reading a pointer alternative that is not held throws.
        if k.MessageK? && k.ptr && !held then Err
        else
          match ApplyField(s, codec, mv, k, path, if held then sc.v else DefaultKind(s, codec, k), uc.v)
          case Err => Err
          case Ok((v, u)) => Ok((Alt(alt, v), Alt(alt, u)))
  }

  function ApplyField(s: Schema, codec: Codec, mv: Moves, k: Kind, path: seq<string>, v: Value,
                      u: Value): Result<(Value, Value)>
    requires mv.Good()
    decreases path, 3
  {
    if !k.MessageK? then Ok((u, mv.scalar(u)))
    else if k.ptr && v.Null? && u.Null? then Ok((v, u))
    else if k.ptr && u.Null? && path == [] then Ok((Null, Null))
    else
      var cells := s.Cells(k.message);
      var v' := Deref(s, codec, k, v);
      var u' := Deref(s, codec, k, u);
      if !v'.Msg? || !u'.Msg? || |v'.cells| != |cells| || |u'.cells| != |cells| then Err
      else
        match Apply(s, codec, mv, cells, path, v'.cells, u'.cells)
        case Err => Err
        case Ok((m, n)) => Ok((Msg(m), Msg(n)))
  }

  // ---------------------------------------------------------------------------------------
  // What a path selects
  // ---------------------------------------------------------------------------------------

  datatype Leaf = Absent | Whole(cells: seq<CellVal>) | Part(cv: CellVal)

  function Get(s: Schema, codec: Codec, cells: seq<Cell>, path: seq<string>, m: seq<CellVal>): Leaf
    requires |m| == |cells|
    decreases path, 2
  {
    if path == [] then Whole(m)
    else
      match Find(cells, path[0])
      case None => Absent
      case Some(p) => GetCell(s, codec, cells[p.cell], p.alt, path[1..], m[p.cell])
  }

  function GetCell(s: Schema, codec: Codec, c: Cell, alt: nat, path: seq<string>, cv: CellVal): Leaf
    requires c.OneOf? ==> alt < |c.alts|
    decreases path, 4
  {
    match c
    case Repeated(_) => Part(cv)
    case MapOf(_, _) => Part(cv)
    case Singular(f) => if cv.One? then GetField(s, codec, f.kind, path, cv.v) else Absent
    case OneOf(alts) => if cv.Alt? && cv.i == alt then GetField(s, codec, alts[alt].kind, path, cv.v) else Absent
  }

  function GetField(s: Schema, codec: Codec, k: Kind, path: seq<string>, v: Value): Leaf
    decreases path, 3
  {
    if !k.MessageK? || path == [] then Part(One(v))
    else
      var cells := s.Cells(k.message);
      var v' := Deref(s, codec, k, v);
      if !v'.Msg? || |v'.cells| != |cells| then Absent else Get(s, codec, cells, path, v'.cells)
  }

  /** A list is appended to, a map is merged into with the update winning, anything else is
      replaced.  What the target does not have counts as empty. */
  function Merged(before: Leaf, from: Leaf): Leaf {
    if from.Part? && from.cv.Many? then
      Part(Many((if before.Part? && before.cv.Many? then before.cv.vs else []) + from.cv.vs))
    else if from.Part? && from.cv.Table? then
      Part(Table((if before.Part? && before.cv.Table? then before.cv.m else map[]) + from.cv.m))
    else from
  }
}
