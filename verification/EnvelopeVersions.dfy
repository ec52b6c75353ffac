/**
  * Readers and writers of different versions: what an older reader sees of a newer writer's
  * value, and when two writers are read alike.
  */
module EnvelopeVersions {
  import opened Wrappers
  import opened Varint
  import opened Records
  import opened RecordRoundTrip
  import opened Envelopes

  // ---------------------------------------------------------------------------------------
  // Older readers
  // ---------------------------------------------------------------------------------------

  /** At every level the older type lists the first fields of the newer one. */
  ghost predicate Older(a: Type, b: Type)
    decreases a
  {
    match (a, b)
    case (IntT(width, signed), IntT(width', signed')) => width == width' && signed == signed'
    case (BytesT, BytesT) => true
    case (OptionalT(x), OptionalT(y)) => Older(x, y)
    case (TristateT(x), TristateT(y)) => Older(x, y)
    case (VectorT(x), VectorT(y)) => Older(x, y)
    case (EnvelopeT(fs), EnvelopeT(gs)) => |fs| <= |gs| && forall i :: 0 <= i < |fs| ==> OlderField(fs[i], gs[i])
    case _ => false
  }

  ghost predicate OlderField(f: FieldType, g: FieldType)
    decreases f
  {
    f.since == g.since && Older(f.t, g.t)
  }

  /** A value without the fields that the older type does not list. */
  function Trim(a: Type, v: Val): Val
    decreases v
  {
    match (a, v)
    case (OptionalT(x), OptionalV(Some(u))) => OptionalV(Some(Trim(x, u)))
    case (TristateT(x), TristateV(state, Some(u))) => TristateV(state, Some(Trim(x, u)))
    case (VectorT(x), VectorV(vs)) => VectorV(seq(|vs|, i requires 0 <= i < |vs| => Trim(x, vs[i])))
    case (EnvelopeT(fs), EnvelopeV(vs)) =>
      var n := if |fs| < |vs| then |fs| else |vs|;
      EnvelopeV(seq(n, i requires 0 <= i < |fs| && i < |vs| => TrimField(fs[i].t, vs[i])))
    case _ => v
  }

  function TrimField(a: Type, o: Option<Val>): Option<Val>
    decreases o
  {
    match o
    case None => None
    case Some(v) => Some(Trim(a, v))
  }

  /** The bytes of the fields from `n` on. */
  function EncodeTail(gs: seq<FieldType>, version: int, ws: seq<Wire>, n: nat): seq<byte>
    decreases ws
  {
    if |ws| <= n || |gs| != |ws| then []
    else
      var m := |ws| - 1;
      EncodeTail(gs[..m], version, ws[..m], n) + (if version < gs[m].since then [] else Encode(gs[m].t, ws[m]))
  }

  lemma {:induction false} FieldsAndTail(gs: seq<FieldType>, version: int, ws: seq<Wire>, n: nat)
    requires n <= |ws| == |gs|
    ensures EncodeFields(gs, version, ws) == EncodeFields(gs[..n], version, ws[..n]) + EncodeTail(gs, version, ws, n)
    decreases |ws|
  {
    hide Encode;
    if n == |ws| {
      assert gs[..n] == gs && ws[..n] == ws;
    } else {
      var m := |ws| - 1;
      FieldsAndTail(gs[..m], version, ws[..m], n);
      assert gs[..m][..n] == gs[..n] && ws[..m][..n] == ws[..n];
    }
  }

  /** The same bytes, as the older type divides them: fields it does not list are just bytes. */
  function Downgrade(a: Type, b: Type, w: Wire): Wire
    decreases w
  {
    match (a, b, w)
    case (OptionalT(x), OptionalT(y), OptionalW(flag, Some(u))) => OptionalW(flag, Some(Downgrade(x, y, u)))
    case (TristateT(x), TristateT(y), TristateW(state, Some(u))) => TristateW(state, Some(Downgrade(x, y, u)))
    case (VectorT(x), VectorT(y), VectorW(ws)) => VectorW(DowngradeAll(x, y, ws))
    case (EnvelopeT(fs), EnvelopeT(gs), EnvelopeW(version, compat, ws, newer)) =>
      if compat != 0 then w
      else EnvelopeW(version, compat, DowngradeFields(fs, gs, ws), EncodeTail(gs, version, ws, |fs|) + newer)
    case _ => w
  }

  function DowngradeAll(a: Type, b: Type, ws: seq<Wire>): (r: seq<Wire>)
    ensures |r| == |ws|
    decreases ws
  {
    seq(|ws|, i requires 0 <= i < |ws| => Downgrade(a, b, ws[i]))
  }

  function DowngradeFields(fs: seq<FieldType>, gs: seq<FieldType>, ws: seq<Wire>): (r: seq<Wire>)
    ensures |r| == |fs|
    decreases ws
  {
    seq(|fs|, i requires 0 <= i < |fs| => if i < |ws| && i < |gs| then Downgrade(fs[i].t, gs[i].t, ws[i]) else IntW(0))
  }

  /** The downgraded value has the same encoding, conforms to the older type, and is seen as the
      trimmed value. */
  ghost predicate SameBytes(a: Type, b: Type, w: Wire) {
    var d := Downgrade(a, b, w);
    Encode(a, d) == Encode(b, w) && Conforms(a, d) && View(a, d) == Trim(a, View(b, w))
  }

  lemma {:induction false} DowngradeKeepsBytes(a: Type, b: Type, w: Wire)
    requires Older(a, b) && Conforms(b, w)
    ensures SameBytes(a, b, w)
    decreases w, 1
  {
    hide PackOr, InRange, EncodeAll, EncodeFields, EncodeTail;
    match (a, b, w)
    case (OptionalT(x), OptionalT(y), OptionalW(_, o)) =>
      if o.Some? { DowngradeKeepsBytes(x, y, o.value); }
    case (TristateT(x), TristateT(y), TristateW(state, o)) =>
      if o.Some? { DowngradeKeepsBytes(x, y, o.value); }
    case (VectorT(x), VectorT(y), VectorW(ws)) =>
      forall i | 0 <= i < |ws| ensures SameBytes(x, y, ws[i]) { DowngradeKeepsBytes(x, y, ws[i]); }
      AllSameBytes(x, y, ws);
      assert View(a, Downgrade(a, b, w)).vs == Trim(a, View(b, w)).vs;
    case (EnvelopeT(fs), EnvelopeT(gs), EnvelopeW(version, compat, ws, newer)) =>
      EnvelopeKeepsBytes(a, b, w);
    case _ =>
  }

  lemma {:induction false} AllSameBytes(x: Type, y: Type, ws: seq<Wire>)
    requires forall i :: 0 <= i < |ws| ==> SameBytes(x, y, ws[i])
    ensures EncodeAll(x, DowngradeAll(x, y, ws)) == EncodeAll(y, ws)
    decreases |ws|
  {
    hide Encode, Conforms, View, Trim, Downgrade;
    if ws != [] {
      var n := |ws| - 1;
      AllSameBytes(x, y, ws[..n]);
      assert DowngradeAll(x, y, ws)[..n] == DowngradeAll(x, y, ws[..n]);
      assert SameBytes(x, y, ws[n]);
    }
  }

  lemma {:induction false} FieldsSameBytes(fs: seq<FieldType>, gs: seq<FieldType>, version: int, ws: seq<Wire>, n: nat)
    requires n <= |fs| <= |gs| == |ws| && forall i :: 0 <= i < |fs| ==> fs[i].since == gs[i].since
    requires forall i :: 0 <= i < |fs| && gs[i].since <= version ==> SameBytes(fs[i].t, gs[i].t, ws[i])
    ensures EncodeFields(fs[..n], version, DowngradeFields(fs, gs, ws)[..n]) == EncodeFields(gs[..n], version, ws[..n])
  {
    hide Encode, Conforms, View, Trim, Downgrade;
    if n > 0 {
      var ds := DowngradeFields(fs, gs, ws);
      FieldsSameBytes(fs, gs, version, ws, n - 1);
      assert fs[..n][..n - 1] == fs[..n - 1] && gs[..n][..n - 1] == gs[..n - 1];
      assert ds[..n][..n - 1] == ds[..n - 1] && ws[..n][..n - 1] == ws[..n - 1];
      assert gs[n - 1].since <= version ==> SameBytes(fs[n - 1].t, gs[n - 1].t, ws[n - 1]);
    }
  }

  lemma {:induction false} EnvelopeKeepsBytes(a: Type, b: Type, w: Wire)
    requires a.EnvelopeT? && b.EnvelopeT? && w.EnvelopeW? && Older(a, b) && Conforms(b, w)
    ensures SameBytes(a, b, w)
    decreases w, 0
  {
    if w.compat == 0 {
      var fs, gs, ws, version := a.fields, b.fields, w.fields, w.version;
      forall i | 0 <= i < |fs|
        ensures fs[i].since == gs[i].since && Older(fs[i].t, gs[i].t)
        ensures gs[i].since <= version ==> SameBytes(fs[i].t, gs[i].t, ws[i])
      {
        assert OlderField(fs[i], gs[i]);
        if gs[i].since <= version { DowngradeKeepsBytes(fs[i].t, gs[i].t, ws[i]); }
      }
      EnvelopeFromFields(a, b, w);
    }
  }

  lemma EnvelopeFromFields(a: Type, b: Type, w: Wire)
    requires a.EnvelopeT? && b.EnvelopeT? && w.EnvelopeW? && Conforms(b, w) && w.compat == 0 && |a.fields| <= |b.fields|
    requires forall i :: 0 <= i < |a.fields| ==> a.fields[i].since == b.fields[i].since
    requires forall i :: 0 <= i < |a.fields| && b.fields[i].since <= w.version ==>
             SameBytes(a.fields[i].t, b.fields[i].t, w.fields[i])
    ensures SameBytes(a, b, w)
  {
    hide PackOr, InRange, EncodeFields, EncodeTail;
    var fs, gs, ws, version := a.fields, b.fields, w.fields, w.version;
    var n, d := |fs|, Downgrade(a, b, w);
    FieldsSameBytes(fs, gs, version, ws, n);
    FieldsAndTail(gs, version, ws, n);
    assert fs[..n] == fs && d.fields[..n] == d.fields;
    var known, tail := EncodeFields(fs, version, d.fields), EncodeTail(gs, version, ws, n);
    assert (known + tail) + w.newer == known + (tail + w.newer);
    forall i | 0 <= i < n && fs[i].since <= version
      ensures Conforms(fs[i].t, d.fields[i]) && View(fs[i].t, d.fields[i]) == Trim(fs[i].t, View(gs[i].t, ws[i]))
    {
      assert SameBytes(fs[i].t, gs[i].t, ws[i]);
    }
    assert View(a, d).fields == Trim(a, View(b, w)).fields;
  }

  /** An older reader, at whatever depth fields were added since, sees the newer reader's value
      without the added fields, and its stream ends at the same place. */
  lemma OldReaderSeesKnownFields(a: Type, b: Type, w: Wire, data: seq<byte>, pos: nat)
    requires Older(a, b) && Conforms(b, w) && pos <= |data| && Holds(data, pos, Encode(b, w))
    ensures Get(b, data, pos) == Some((View(b, w), pos + |Encode(b, w)|))
    ensures Get(a, data, pos) == Some((Trim(a, View(b, w)), pos + |Encode(b, w)|))
  {
    hide Get, Encode, Conforms, View, Trim, Downgrade, Holds, Older;
    ReadsView(b, w, data, pos);
    DowngradeKeepsBytes(a, b, w);
    ReadsView(a, Downgrade(a, b, w), data, pos);
  }

  // ---------------------------------------------------------------------------------------
  // Different writers
  // ---------------------------------------------------------------------------------------

  /** The two values agree on everything the reader reads.  Versions may differ, as long as the
      same listed fields are present. */
  ghost predicate Agree(t: Type, w1: Wire, w2: Wire)
    decreases w1, 0
  {
    match (t, w1, w2)
    case (IntT(_, _), IntW(i), IntW(j)) => i == j
    case (BytesT, BytesW(b), BytesW(c)) => b == c
    case (OptionalT(item), OptionalW(_, o), OptionalW(_, p)) => AgreeOption(item, o, p)
    case (TristateT(item), TristateW(s1, o), TristateW(s2, p)) => s1 == s2 && AgreeOption(item, o, p)
    case (VectorT(item), VectorW(ws), VectorW(us)) => |ws| == |us| && forall i :: 0 <= i < |ws| ==>
      Agree(item, ws[i], us[i])
    case (EnvelopeT(fields), EnvelopeW(v1, c1, ws, n1), EnvelopeW(v2, c2, us, n2)) =>
      if c1 == 0 && c2 == 0 then
        |ws| == |us| && forall i :: 0 <= i < |ws| && i < |fields| ==> AgreeField(fields[i], v1, ws[i], v2, us[i])
      else c1 == c2 && v1 == v2 && |n1| == |n2|
    case _ => false
  }

  ghost predicate AgreeOption(item: Type, o: Option<Wire>, p: Option<Wire>)
    decreases o
  {
    match (o, p)
    case (None, None) => true
    case (Some(x), Some(y)) => Agree(item, x, y)
    case _ => false
  }

  ghost predicate AgreeField(f: FieldType, v1: int, w1: Wire, v2: int, w2: Wire)
    decreases w1, 1
  {
    (f.since <= v1 <==> f.since <= v2) && (f.since <= v1 ==> Agree(f.t, w1, w2))
  }

  lemma {:induction false} SameViewExactly(t: Type, w1: Wire, w2: Wire)
    requires Conforms(t, w1) && Conforms(t, w2)
    ensures View(t, w1) == View(t, w2) <==> Agree(t, w1, w2)
    decreases w1, 1
  {
    hide InRange, EncodeFields, PackOr;
    match (t, w1, w2)
    case (OptionalT(item), OptionalW(_, o), OptionalW(_, p)) =>
      if o.Some? && p.Some? { SameViewExactly(item, o.value, p.value); }
    case (TristateT(item), TristateW(_, o), TristateW(_, p)) =>
      if o.Some? && p.Some? { SameViewExactly(item, o.value, p.value); }
    case (VectorT(item), VectorW(ws), VectorW(us)) =>
      var vs, vs' := View(t, w1).vs, View(t, w2).vs;
      if |ws| == |us| {
        forall i | 0 <= i < |ws| ensures vs[i] == vs'[i] <==>
          Agree(item, ws[i], us[i]) { SameViewExactly(item, ws[i], us[i]); }
      }
      assert vs == vs' <==> |ws| == |us| && forall i :: 0 <= i < |ws| ==> vs[i] == vs'[i];
    case (EnvelopeT(fields), EnvelopeW(_, c1, ws, _), EnvelopeW(_, c2, us, _)) =>
      if c1 == 0 && c2 == 0 { SameFieldsExactly(t, w1, w2); }
    case _ =>
  }

  lemma {:induction false} SameFieldsExactly(t: Type, w1: Wire, w2: Wire)
    requires t.EnvelopeT? && w1.EnvelopeW? && w2.EnvelopeW? && w1.compat == 0 && w2.compat == 0
    requires Conforms(t, w1) && Conforms(t, w2)
    ensures View(t, w1) == View(t, w2) <==> Agree(t, w1, w2)
    decreases w1, 0
  {
    hide InRange, EncodeFields, PackOr;
    var fields, ws, us := t.fields, w1.fields, w2.fields;
    var vs, vs' := View(t, w1).fields, View(t, w2).fields;
    forall i | 0 <= i < |fields|
      ensures vs[i] == vs'[i] <==> AgreeField(fields[i], w1.version, ws[i], w2.version, us[i])
    {
      if fields[i].since <= w1.version && fields[i].since <= w2.version { SameViewExactly(fields[i].t, ws[i], us[i]); }
    }
    assert vs == vs' <==> forall i :: 0 <= i < |fields| ==> vs[i] == vs'[i];
  }

  /** Two writers, of whatever versions, are read alike if and only if they agree on the fields
      that the reader lists; nothing else they wrote matters, at any depth, and each stream ends
      exactly behind its own value. */
  lemma NewerFieldsDoNotMatter(t: Type, w1: Wire, w2: Wire, data1: seq<byte>, data2: seq<byte>, pos1: nat, pos2: nat)
    requires Conforms(t, w1) && pos1 <= |data1| && Holds(data1, pos1, Encode(t, w1))
    requires Conforms(t, w2) && pos2 <= |data2| && Holds(data2, pos2, Encode(t, w2))
    ensures Get(t, data1, pos1).Some? && Get(t, data2, pos2).Some?
    ensures Get(t, data1, pos1).value.0 == Get(t, data2, pos2).value.0 <==> Agree(t, w1, w2)
    ensures Get(t, data1, pos1).value.1 == pos1 + |Encode(t, w1)|
    ensures Get(t, data2, pos2).value.1 == pos2 + |Encode(t, w2)|
  {
    hide Get, Encode, Conforms, View, Holds, Agree;
    ReadsView(t, w1, data1, pos1);
    ReadsView(t, w2, data2, pos2);
    SameViewExactly(t, w1, w2);
  }
}
