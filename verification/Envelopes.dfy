/**
  * Versioned envelopes: a version, a compatibility version and a size before the fields.  A
  * reader reads the fields it knows and skips to the end, so fields appended by newer writers
  * do not disturb it, at whatever depth they were appended.
  */
module Envelopes {
  import opened Wrappers
  import opened Varint
  import opened Records
  import opened RecordRoundTrip

  /** What a type reader reads.  An envelope's field is read if the envelope's version is at
      least the one that introduced it. */
  datatype Type =
    | IntT(width: nat, signed: bool)
    | BytesT
    | OptionalT(item: Type)
    | TristateT(item: Type)
    | VectorT(item: Type)
    | EnvelopeT(fields: seq<FieldType>)

  datatype FieldType = FieldType(since: int, t: Type)

  datatype Val =
    | IntV(i: int)
    | BytesV(bs: seq<byte>)
    | OptionalV(o: Option<Val>)
    | TristateV(state: int, o: Option<Val>)
    | VectorV(vs: seq<Val>)
    | EnvelopeV(fields: seq<Option<Val>>)
    | Unreadable(version: int, compat: int, size: int)

  const ENVELOPE_SIZE := 6

  // ---------------------------------------------------------------------------------------
  // Reading, as a function of the data and the position
  // ---------------------------------------------------------------------------------------

  function Get(t: Type, data: seq<byte>, pos: nat): (r: Option<(Val, nat)>)
    requires pos <= |data|
    ensures r.Some? ==> pos <= r.value.1 <= |data|
    decreases t, 0
  {
    match t
    case IntT(width, signed) =>
      (match GetInt(data, pos, width, signed) case None => None case Some((i, p)) => Some((IntV(i), p)))
    case BytesT =>
      (match GetInt(data, pos, 4, true)
       case None => None
       case Some((n, p)) =>
         match GetBytes(data, p, n) case None => None case Some((bs, q)) => Some((BytesV(bs), q)))
    case OptionalT(item) =>
      (match GetInt(data, pos, 1, true)
       case None => None
       case Some((present, p)) =>
         if present == 0 then Some((OptionalV(None), p))
         else match Get(item, data, p) case None => None case Some((v, q)) => Some((OptionalV(Some(v)), q)))
    case TristateT(item) =>
      (match GetInt(data, pos, 1, true)
       case None => None
       case Some((state, p)) =>
         if state == -1 || state == 0 then Some((TristateV(state, None), p))
         else match Get(item, data, p) case None => None case Some((v, q)) => Some((TristateV(state, Some(v)), q)))
    case VectorT(item) =>
      (match GetInt(data, pos, 4, false)
       case None => None
       case Some((n, p)) =>
         match GetVector(item, data, p, n) case None => None case Some((vs, q)) => Some((VectorV(vs), q)))
    case EnvelopeT(fields) =>
      if pos + ENVELOPE_SIZE > |data| then None
      else
        var version, compat := UnpackInt(data[pos..pos + 1], false), UnpackInt(data[pos + 1..pos + 2], false);
        var size := UnpackInt(data[pos + 2..pos + 6], false);
        var start := pos + ENVELOPE_SIZE;
        if compat != 0 then
          (match GetBytes(data, start, size)
           case None => None
           case Some((_, q)) => Some((Unreadable(version, compat, size), q)))
        else
          match GetFields(fields, version, data, start)
          case None => None
          case Some((vs, p)) =>
            match GetBytes(data, p, size - (p - start)) case None => None case Some((_, q)) => Some((EnvelopeV(vs), q))
  }

  function GetVector(item: Type, data: seq<byte>, pos: nat, n: int): (r: Option<(seq<Val>, nat)>)
    requires pos <= |data|
    ensures r.Some? ==> pos <= r.value.1 <= |data|
    decreases item, 1, if n > 0 then n else 0
  {
    if n <= 0 then Some(([], pos))
    else
      match GetVector(item, data, pos, n - 1)
      case None => None
      case Some((vs, p)) =>
        match Get(item, data, p) case None => None case Some((v, q)) => Some((vs + [v], q))
  }

  function GetFields(fields: seq<FieldType>, version: int, data: seq<byte>,
                     pos: nat): (r: Option<(seq<Option<Val>>, nat)>)
    requires pos <= |data|
    ensures r.Some? ==> pos <= r.value.1 <= |data|
    decreases fields
  {
    if fields == [] then Some(([], pos))
    else
      var f := fields[|fields| - 1];
      match GetFields(fields[..|fields| - 1], version, data, pos)
      case None => None
      case Some((vs, p)) =>
        if version < f.since then Some((vs + [None], p))
        else match GetField(f, data, p) case None => None case Some((v, q)) => Some((vs + [Some(v)], q))
  }

  function GetField(f: FieldType, data: seq<byte>, pos: nat): (r: Option<(Val, nat)>)
    requires pos <= |data|
    ensures r.Some? ==> pos <= r.value.1 <= |data|
    decreases f
  {
    Get(f.t, data, pos)
  }

  // ---------------------------------------------------------------------------------------
  // What a writer puts there
  // ---------------------------------------------------------------------------------------

  /** A written value.  `newer` is whatever the writer appended behind the fields that the
      reader's type lists; fields introduced after `version` are not written.  Any flag other than
      zero means that an optional value is present. */
  datatype Wire =
    | IntW(i: int)
    | BytesW(bs: seq<byte>)
    | OptionalW(flag: int, o: Option<Wire>)
    | TristateW(state: int, o: Option<Wire>)
    | VectorW(ws: seq<Wire>)
    | EnvelopeW(version: byte, compat: byte, fields: seq<Wire>, newer: seq<byte>)

  function PackOr(v: int, width: nat, signed: bool): seq<byte> {
    if InRange(v, width, signed) then PackInt(v, width, signed) else []
  }

  function Encode(t: Type, w: Wire): seq<byte>
    decreases w
  {
    match (t, w)
    case (IntT(width, signed), IntW(i)) => PackOr(i, width, signed)
    case (BytesT, BytesW(bs)) => PackOr(|bs|, 4, true) + bs
    case (OptionalT(item), OptionalW(flag, o)) =>
      PackOr(flag, 1, true) + (match o case None => [] case Some(x) => Encode(item, x))
    case (TristateT(item), TristateW(state, o)) =>
      PackOr(state, 1, true) + (match o case None => [] case Some(x) => Encode(item, x))
    case (VectorT(item), VectorW(ws)) => PackOr(|ws|, 4, false) + EncodeAll(item, ws)
    case (EnvelopeT(fields), EnvelopeW(version, compat, ws, newer)) =>
      var body := (if compat == 0 then EncodeFields(fields, version, ws) else []) + newer;
      [version, compat] + (PackOr(|body|, 4, false) + body)
    case _ => []
  }

  function EncodeAll(item: Type, ws: seq<Wire>): seq<byte>
    decreases ws
  {
    if ws == [] then [] else EncodeAll(item, ws[..|ws| - 1]) + Encode(item, ws[|ws| - 1])
  }

  function EncodeFields(fields: seq<FieldType>, version: int, ws: seq<Wire>): seq<byte>
    decreases ws
  {
    if ws == [] || |fields| != |ws| then []
    else
      var n := |ws| - 1;
      EncodeFields(fields[..n], version, ws[..n]) + (if version < fields[n].since then []
        else Encode(fields[n].t, ws[n]))
  }

  /** The value fits the type, and its sizes fit their fields. */
  ghost predicate Conforms(t: Type, w: Wire)
    decreases w
  {
    match (t, w)
    case (IntT(width, signed), IntW(i)) => InRange(i, width, signed)
    case (BytesT, BytesW(bs)) => InRange(|bs|, 4, true)
    case (OptionalT(item), OptionalW(flag, o)) =>
      InRange(flag, 1, true) && (o.None? <==> flag == 0) && (o.Some? ==> Conforms(item, o.value))
    case (TristateT(item), TristateW(state, o)) =>
      InRange(state, 1, true) && (o.None? <==> state == -1 || state == 0) && (o.Some? ==> Conforms(item, o.value))
    case (VectorT(item), VectorW(ws)) => InRange(|ws|, 4, false) && forall i :: 0 <= i < |ws| ==> Conforms(item, ws[i])
    case (EnvelopeT(fields), EnvelopeW(version, compat, ws, newer)) =>
      && InRange(|(if compat == 0 then EncodeFields(fields, version, ws) else []) + newer|, 4, false)
      && (compat == 0 ==>
            |ws| == |fields| &&
            forall i :: 0 <= i < |ws| && fields[i].since <= version ==> Conforms(fields[i].t, ws[i]))
    case _ => false
  }

  /** What the reader makes of it: the fields it knows. */
  function View(t: Type, w: Wire): Val
    decreases w
  {
    match (t, w)
    case (IntT(_, _), IntW(i)) => IntV(i)
    case (BytesT, BytesW(bs)) => BytesV(bs)
    case (OptionalT(item), OptionalW(_, o)) => OptionalV(match o case None => None case Some(x) => Some(View(item, x)))
    case (TristateT(item), TristateW(state, o)) => TristateV(state,
      match o case None => None case Some(x) => Some(View(item, x)))
    case (VectorT(item), VectorW(ws)) => VectorV(seq(|ws|, i requires 0 <= i < |ws| => View(item, ws[i])))
    case (EnvelopeT(fields), EnvelopeW(version, compat, ws, newer)) =>
      if compat != 0 then Unreadable(version, compat, |newer|)
      else EnvelopeV(seq(|ws|, i requires 0 <= i < |ws| =>
        if i < |fields| && fields[i].since <= version as int then Some(View(fields[i].t, ws[i])) else None))
    case _ => IntV(0)
  }

  // ---------------------------------------------------------------------------------------
  // Reading what was written
  // ---------------------------------------------------------------------------------------

  lemma PackedAt(data: seq<byte>, pos: nat, v: int, width: nat, signed: bool)
    requires InRange(v, width, signed) && Holds(data, pos, PackOr(v, width, signed))
    ensures GetInt(data, pos, width, signed) == Some((v, pos + width)) && |PackOr(v, width, signed)| == width
  {
    PackedInt(v, width, signed);
  }

  lemma ByteAt(data: seq<byte>, pos: nat, b: byte)
    requires pos < |data| && data[pos] == b
    ensures UnpackInt(data[pos..pos + 1], false) == b
  {
    assert data[pos..pos + 1] == [b];
    assert [b][1..] == [];
    assert FromLittleEndian([b]) == b + 256 * FromLittleEndian([]);
  }

  /** The envelope header. */
  lemma EnvelopeHeaderAt(data: seq<byte>, pos: nat, version: byte, compat: byte, body: seq<byte>)
    requires InRange(|body|, 4, false) && Holds(data, pos, [version, compat] + (PackOr(|body|, 4, false) + body))
    ensures pos + ENVELOPE_SIZE + |body| <= |data| && |PackOr(|body|, 4, false)| == 4
    ensures UnpackInt(data[pos..pos + 1], false) == version && UnpackInt(data[pos + 1..pos + 2], false) == compat
    ensures UnpackInt(data[pos + 2..pos + 6], false) == |body| && Holds(data, pos + ENVELOPE_SIZE, body)
  {
    HoldsParts(data, pos, [version, compat], PackOr(|body|, 4, false) + body);
    HoldsParts(data, pos + 2, PackOr(|body|, 4, false), body);
    assert data[pos..pos + 2][0] == version && data[pos..pos + 2][1] == compat;
    ByteAt(data, pos, version);
    ByteAt(data, pos + 1, compat);
    PackedAt(data, pos + 2, |body|, 4, false);
  }

  /** A conforming value is read as the reader's view of it, and the stream ends exactly behind it. */
  lemma {:induction false} ReadsView(t: Type, w: Wire, data: seq<byte>, pos: nat)
    requires Conforms(t, w) && pos <= |data| && Holds(data, pos, Encode(t, w))
    ensures Get(t, data, pos) == Some((View(t, w), pos + |Encode(t, w)|))
    decreases w, 1
  {
    hide Holds, GetInt, GetBytes, PackOr, EncodeAll, EncodeFields, GetVector, GetFields, InRange, UnpackInt;
    match (t, w)
    case (IntT(width, signed), IntW(i)) => PackedAt(data, pos, i, width, signed);
    case (BytesT, BytesW(bs)) =>
      HoldsParts(data, pos, PackOr(|bs|, 4, true), bs);
      PackedAt(data, pos, |bs|, 4, true);
      BytesAt(data, pos + 4, bs);
    case (OptionalT(item), OptionalW(flag, o)) =>
      HoldsParts(data, pos, PackOr(flag, 1, true), match o case None => [] case Some(x) => Encode(item, x));
      PackedAt(data, pos, flag, 1, true);
      if o.Some? { ReadsView(item, o.value, data, pos + 1); }
    case (TristateT(item), TristateW(state, o)) =>
      HoldsParts(data, pos, PackOr(state, 1, true), match o case None => [] case Some(x) => Encode(item, x));
      PackedAt(data, pos, state, 1, true);
      if o.Some? { ReadsView(item, o.value, data, pos + 1); }
    case (VectorT(item), VectorW(ws)) =>
      HoldsParts(data, pos, PackOr(|ws|, 4, false), EncodeAll(item, ws));
      PackedAt(data, pos, |ws|, 4, false);
      ReadsAll(item, ws, data, pos + 4);
    case (EnvelopeT(fields), EnvelopeW(version, compat, ws, newer)) =>
      ReadsEnvelope(t, w, data, pos);
  }

  lemma {:induction false} ReadsEnvelope(t: Type, w: Wire, data: seq<byte>, pos: nat)
    requires t.EnvelopeT? && w.EnvelopeW? && Conforms(t, w) && pos <= |data| && Holds(data, pos, Encode(t, w))
    ensures Get(t, data, pos) == Some((View(t, w), pos + |Encode(t, w)|))
    decreases w, 0
  {
    hide Holds, GetInt, GetBytes, PackOr, EncodeFields, GetFields, InRange, UnpackInt;
    var known, newer := EncodeFields(t.fields, w.version, w.fields), w.newer;
    if w.compat == 0 {
      EnvelopeHeaderAt(data, pos, w.version, w.compat, known + newer);
      HoldsParts(data, pos + ENVELOPE_SIZE, known, newer);
      ReadsFields(t.fields, w.version, w.fields, data, pos + ENVELOPE_SIZE);
      BytesAt(data, pos + ENVELOPE_SIZE + |known|, newer);
    } else {
      assert [] + newer == newer;
      EnvelopeHeaderAt(data, pos, w.version, w.compat, newer);
      BytesAt(data, pos + ENVELOPE_SIZE, newer);
    }
  }

  function Views(item: Type, ws: seq<Wire>): seq<Val> {
    seq(|ws|, i requires 0 <= i < |ws| => View(item, ws[i]))
  }

  function FieldViews(fields: seq<FieldType>, version: int, ws: seq<Wire>): seq<Option<Val>> {
    seq(|ws|, i requires 0 <= i < |ws| =>
      if i < |fields| && fields[i].since <= version then Some(View(fields[i].t, ws[i])) else None)
  }

  lemma {:induction false} ReadsAll(item: Type, ws: seq<Wire>, data: seq<byte>, pos: nat)
    requires (forall i :: 0 <= i < |ws| ==> Conforms(item, ws[i])) && pos <= |data|
             && Holds(data, pos, EncodeAll(item, ws))
    ensures GetVector(item, data, pos, |ws|) == Some((Views(item, ws), pos + |EncodeAll(item, ws)|))
    decreases ws
  {
    hide Get, Encode, Conforms, View, Holds;
    if ws == [] {
      assert Views(item, ws) == [];
    } else {
      var n := |ws| - 1;
      HoldsParts(data, pos, EncodeAll(item, ws[..n]), Encode(item, ws[n]));
      ReadsAll(item, ws[..n], data, pos);
      ReadsView(item, ws[n], data, pos + |EncodeAll(item, ws[..n])|);
      assert Views(item, ws) == Views(item, ws[..n]) + [View(item, ws[n])];
    }
  }

  lemma FieldViewsSnoc(fields: seq<FieldType>, version: int, ws: seq<Wire>)
    requires |ws| == |fields| && ws != []
    ensures var n := |ws| - 1;
            FieldViews(fields, version, ws) == FieldViews(fields[..n], version, ws[..n]) +
              [if fields[n].since <= version then Some(View(fields[n].t, ws[n])) else None]
  {
    hide View;
  }

  lemma EncodeFieldsSnoc(fields: seq<FieldType>, version: int, ws: seq<Wire>)
    requires ws != [] && |ws| == |fields|
    ensures var n := |ws| - 1;
            EncodeFields(fields, version, ws) ==
            EncodeFields(fields[..n], version, ws[..n]) +
            (if version < fields[n].since then [] else Encode(fields[n].t, ws[n]))
  {
    hide Encode;
  }

  lemma {:induction false} ReadsFields(fields: seq<FieldType>, version: int, ws: seq<Wire>, data: seq<byte>, pos: nat)
    requires |ws| == |fields| && forall i :: 0 <= i < |ws| && fields[i].since <= version ==>
             Conforms(fields[i].t, ws[i])
    requires pos <= |data| && Holds(data, pos, EncodeFields(fields, version, ws))
    ensures GetFields(fields, version, data, pos) ==
            Some((FieldViews(fields, version, ws), pos + |EncodeFields(fields, version, ws)|))
    decreases ws
  {
    hide Get, Encode, Conforms, View, Holds;
    if ws == [] {
      assert FieldViews(fields, version, ws) == [];
    } else {
      hide FieldViews, EncodeFields;
      var n := |ws| - 1;
      var last := if version < fields[n].since then [] else Encode(fields[n].t, ws[n]);
      var done := EncodeFields(fields[..n], version, ws[..n]);
      EncodeFieldsSnoc(fields, version, ws);
      HoldsParts(data, pos, done, last);
      ReadsFields(fields[..n], version, ws[..n], data, pos);
      if fields[n].since <= version { ReadsView(fields[n].t, ws[n], data, pos + |done|); }
      FieldViewsSnoc(fields, version, ws);
    }
  }

  // ---------------------------------------------------------------------------------------
  // Where an envelope ends, whatever bytes are there
  // ---------------------------------------------------------------------------------------

  /** The field readers stay inside the envelope, and the data holds all of it. */
  predicate StaysInside(fields: seq<FieldType>, data: seq<byte>, pos: nat)
    requires pos + ENVELOPE_SIZE <= |data|
  {
    var version, compat := UnpackInt(data[pos..pos + 1], false), UnpackInt(data[pos + 1..pos + 2], false);
    var end := pos + ENVELOPE_SIZE + UnpackInt(data[pos + 2..pos + 6], false);
    && end <= |data|
    && (compat == 0 ==>
          match GetFields(fields, version, data, pos + ENVELOPE_SIZE)
          case None => false
          case Some((_, p)) => p <= end)
  }

  /** For arbitrary bytes, the stream ends as far behind the header as the header says if and only
      if the field readers stay inside the envelope and the envelope is complete. */
  lemma EnvelopeEndsExactly(fields: seq<FieldType>, data: seq<byte>, pos: nat)
    requires pos + ENVELOPE_SIZE <= |data|
    ensures var end := pos + ENVELOPE_SIZE + UnpackInt(data[pos + 2..pos + 6], false);
            var r := Get(EnvelopeT(fields), data, pos);
            (r.Some? && r.value.1 == end) <==> StaysInside(fields, data, pos)
  {
    hide GetFields, UnpackInt;
  }

  /** A reader that runs over the end by one byte asks for -1 bytes, which swallows the rest of the
      stream; one that runs over further raises. */
  lemma OverrunSwallowsOrRaises(fields: seq<FieldType>, data: seq<byte>, pos: nat)
    requires pos + ENVELOPE_SIZE <= |data| && UnpackInt(data[pos + 1..pos + 2], false) == 0
    requires GetFields(fields, UnpackInt(data[pos..pos + 1], false), data, pos + ENVELOPE_SIZE).Some?
    ensures var end := pos + ENVELOPE_SIZE + UnpackInt(data[pos + 2..pos + 6], false);
            var p := GetFields(fields, UnpackInt(data[pos..pos + 1], false), data, pos + ENVELOPE_SIZE).value.1;
            var r := Get(EnvelopeT(fields), data, pos);
            (r.None? <==> p > end + 1) && (r.Some? && (p == end + 1 || end > |data|) ==> r.value.1 == |data|)
  {
    hide GetFields, UnpackInt;
  }

  /** An envelope of size zero, in front of data that belongs to something else. */
  function EmptyEnvelope(): seq<byte> {
    [0, 0, 0, 0, 0, 0, 7, 8, 9]
  }

  /** A reader of one byte takes all of it, and a reader of two bytes raises. */
  lemma OverrunExamples()
    ensures Get(EnvelopeT([FieldType(0, IntT(1, false))]), EmptyEnvelope(), 0) == Some((EnvelopeV([Some(IntV(7))]), 9))
    ensures Get(EnvelopeT([FieldType(0, IntT(2, false))]), EmptyEnvelope(), 0).None?
  {
    var data := EmptyEnvelope();
    EmptyHeader();
    ByteAt(data, 6, 7);
    hide UnpackInt, GetFields;
    OneField(IntT(1, false), data, 6);
    OneField(IntT(2, false), data, 6);
  }

  lemma EmptyHeader()
    ensures var data := EmptyEnvelope();
            && UnpackInt(data[0..1], false) == 0 && UnpackInt(data[1..2], false) == 0
            && UnpackInt(data[2..6], false) == 0
  {
    var data := EmptyEnvelope();
    ByteAt(data, 0, 0);
    ByteAt(data, 1, 0);
    assert data[2..6] == [0, 0, 0, 0];
    assert [0, 0, 0, 0][1..] == [0, 0, 0] && [0, 0, 0][1..] == [0, 0] && [0, 0][1..] == [0] && [0][1..] == [];
    assert FromLittleEndian([0]) == 0 && FromLittleEndian([0, 0]) == 0 && FromLittleEndian([0, 0, 0]) == 0;
  }

  lemma OneField(t: Type, data: seq<byte>, pos: nat)
    requires pos <= |data|
    ensures GetFields([FieldType(0, t)], 0, data, pos) ==
            match Get(t, data, pos) case None => None case Some((v, q)) => Some(([Some(v)], q))
  {
    var f := FieldType(0, t);
    assert [f][..0] == [] && GetFields([], 0, data, pos) == Some(([], pos));
    match Get(t, data, pos) {
      case None =>
      case Some((v, q)) => assert [] + [Some(v)] == [Some(v)];
    }
  }

  /** A conforming envelope takes its header and as many bytes as its header says. */
  lemma EnvelopeEndsAtItsSize(fields: seq<FieldType>, w: Wire, data: seq<byte>, pos: nat)
    requires w.EnvelopeW? && Conforms(EnvelopeT(fields), w) && pos <= |data|
             && Holds(data, pos, Encode(EnvelopeT(fields), w))
    ensures pos + ENVELOPE_SIZE <= |data| && StaysInside(fields, data, pos)
  {
    hide Get, View, Holds, StaysInside;
    ReadsView(EnvelopeT(fields), w, data, pos);
    EnvelopeHeaderAt(data, pos, w.version, w.compat, (if w.compat == 0 then EncodeFields(fields, w.version, w.fields)
      else []) + w.newer);
    EnvelopeEndsExactly(fields, data, pos);
  }

  // ---------------------------------------------------------------------------------------
  // The reader
  // ---------------------------------------------------------------------------------------

  method ReadFixed(rdr: Reader, width: nat, signed: bool) returns (r: Option<int>)
    requires rdr.Valid()
    modifies rdr
    ensures rdr.Valid()
    ensures match GetInt(rdr.data, old(rdr.pos), width, signed)
            case None => r.None?
            case Some((n, next)) => r == Some(n) && rdr.pos == next
  {
    var bs := rdr.ReadBytes(width);
    if bs.None? || |bs.value| != width {
      return None;
    }
    return Some(UnpackInt(bs.value, signed));
  }

  /** Reads one value of the given type, moving the stream. */
  method Read(rdr: Reader, t: Type) returns (r: Option<Val>)
    requires rdr.Valid()
    modifies rdr
    ensures rdr.Valid()
    ensures match Get(t, rdr.data, old(rdr.pos))
            case None => r.None?
            case Some((v, next)) => r == Some(v) && rdr.pos == next
    decreases t, 2
  {
    match t
    case IntT(width, signed) =>
      var i := ReadFixed(rdr, width, signed);
      if i.None? { return None; }
      return Some(IntV(i.value));
    case BytesT =>
      var n := ReadFixed(rdr, 4, true);
      if n.None? { return None; }
      var bs := rdr.ReadBytes(n.value);
      if bs.None? { return None; }
      return Some(BytesV(bs.value));
    case OptionalT(item) =>
      var present := ReadFixed(rdr, 1, true);
      if present.None? { return None; }
      if present.value == 0 { return Some(OptionalV(None)); }
      var v := Read(rdr, item);
      if v.None? { return None; }
      return Some(OptionalV(Some(v.value)));
    case TristateT(item) =>
      var state := ReadFixed(rdr, 1, true);
      if state.None? { return None; }
      if state.value == -1 || state.value == 0 { return Some(TristateV(state.value, None)); }
      var v := Read(rdr, item);
      if v.None? { return None; }
      return Some(TristateV(state.value, Some(v.value)));
    case VectorT(item) =>
      var n := ReadFixed(rdr, 4, false);
      if n.None? { return None; }
      var vs := ReadVector(rdr, item, n.value);
      if vs.None? { return None; }
      return Some(VectorV(vs.value));
    case EnvelopeT(fields) => r := ReadEnvelope(rdr, t);
  }

  method ReadVector(rdr: Reader, item: Type, n: int) returns (r: Option<seq<Val>>)
    requires rdr.Valid()
    modifies rdr
    ensures rdr.Valid()
    ensures match GetVector(item, rdr.data, old(rdr.pos), n)
            case None => r.None?
            case Some((vs, next)) => r == Some(vs) && rdr.pos == next
    decreases item, 3
  {
    hide Get;
    var vs: seq<Val> := [];
    var i := 0;
    while i < n
      invariant rdr.Valid() && 0 <= i && (i <= n || i == 0)
      invariant GetVector(item, rdr.data, old(rdr.pos), i) == Some((vs, rdr.pos))
    {
      var v := Read(rdr, item);
      i := i + 1;
      if v.None? {
        NoItem(item, rdr.data, old(rdr.pos), i, n);
        return None;
      }
      vs := vs + [v.value];
    }
    return Some(vs);
  }

  lemma {:induction false} NoItem(item: Type, data: seq<byte>, pos: nat, i: int, n: int)
    requires pos <= |data| && i <= n && GetVector(item, data, pos, i).None?
    ensures GetVector(item, data, pos, n).None?
    decreases n - i
  {
    if i < n { NoItem(item, data, pos, i + 1, n); }
  }

  lemma SubSlice(data: seq<byte>, pos: nat, n: nat, a: nat, b: nat)
    requires a <= b <= n && pos + n <= |data|
    ensures data[pos..pos + n][a..b] == data[pos + a..pos + b]
  {
    var whole := data[pos..pos + n];
    var l, r := whole[a..b], data[pos + a..pos + b];
    forall i | 0 <= i < |l| ensures l[i] == r[i] {
      assert l[i] == whole[a + i] == data[pos + (a + i)];
    }
  }

  /** The header, the known fields, and a skip to the end; or a skip over all of it. */
  method ReadEnvelope(rdr: Reader, t: Type) returns (r: Option<Val>)
    requires rdr.Valid() && t.EnvelopeT?
    modifies rdr
    ensures rdr.Valid()
    ensures match Get(t, rdr.data, old(rdr.pos))
            case None => r.None?
            case Some((v, next)) => r == Some(v) && rdr.pos == next
    decreases t, 1
  {
    hide GetFields, UnpackInt;
    var header := rdr.ReadBytes(ENVELOPE_SIZE);
    if header.None? || |header.value| != ENVELOPE_SIZE {
      return None;
    }
    ghost var data, pos := rdr.data, old(rdr.pos);
    var h := header.value;
    SubSlice(data, pos, 6, 0, 1);
    SubSlice(data, pos, 6, 1, 2);
    SubSlice(data, pos, 6, 2, 6);
    var version, compat, size := UnpackInt(h[0..1], false), UnpackInt(h[1..2], false), UnpackInt(h[2..6], false);
    var start := rdr.pos;
    if compat == 0 {
      var vs := ReadFields(rdr, t, version);
      if vs.None? { return None; }
      var rest := rdr.ReadBytes(size - (rdr.pos - start));
      if rest.None? { return None; }
      return Some(EnvelopeV(vs.value));
    } else {
      var rest := rdr.ReadBytes(size);
      if rest.None? { return None; }
      return Some(Unreadable(version, compat, size));
    }
  }

  method ReadField(rdr: Reader, f: FieldType) returns (r: Option<Val>)
    requires rdr.Valid()
    modifies rdr
    ensures rdr.Valid()
    ensures match GetField(f, rdr.data, old(rdr.pos))
            case None => r.None?
            case Some((v, next)) => r == Some(v) && rdr.pos == next
    decreases f
  {
    r := Read(rdr, f.t);
  }

  method ReadFields(rdr: Reader, t: Type, version: int) returns (r: Option<seq<Option<Val>>>)
    requires rdr.Valid() && t.EnvelopeT?
    modifies rdr
    ensures rdr.Valid()
    ensures match GetFields(t.fields, version, rdr.data, old(rdr.pos))
            case None => r.None?
            case Some((vs, next)) => r == Some(vs) && rdr.pos == next
    decreases t, 0
  {
    hide GetField;
    var fields := t.fields;
    var vs: seq<Option<Val>> := [];
    for i := 0 to |fields|
      invariant rdr.Valid() && GetFields(fields[..i], version, rdr.data, old(rdr.pos)) == Some((vs, rdr.pos))
    {
      assert fields[..i + 1][..i] == fields[..i];
      if version < fields[i].since {
        vs := vs + [None];
      } else {
        var v := ReadField(rdr, fields[i]);
        if v.None? {
          NoField(fields, version, rdr.data, old(rdr.pos), i + 1);
          return None;
        }
        vs := vs + [Some(v.value)];
      }
    }
    assert fields[..|fields|] == fields;
    return Some(vs);
  }

  lemma {:induction false} NoField(fields: seq<FieldType>, version: int, data: seq<byte>, pos: nat, i: nat)
    requires pos <= |data| && i <= |fields| && GetFields(fields[..i], version, data, pos).None?
    ensures GetFields(fields, version, data, pos).None?
    decreases |fields| - i
  {
    if i < |fields| {
      assert fields[..i + 1][..i] == fields[..i];
      NoField(fields, version, data, pos, i + 1);
    } else {
      assert fields[..i] == fields;
    }
  }
}
