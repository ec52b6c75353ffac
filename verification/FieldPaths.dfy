/**
  * The emitted `is_valid_field_path`, `convert_field_path_to_numbers` and `lookup_field`.
  */
module FieldPaths {
  import opened Wrappers
  import opened Descriptors
  import opened Proto
  import opened FieldMask
  import opened FieldMaskLaws
  import opened Quoting
  import T = SortedTables

  /** Whether the path may go on below the field: a message that is neither repeated nor a
      well-known type. */
  predicate Descends(c: Cell, alt: nat)
    requires c.OneOf? ==> alt < |c.alts|
  {
    (c.Singular? || c.OneOf?) && FieldOf(c, alt).kind.MessageK?
  }

  predicate IsValid(s: Schema, cells: seq<Cell>, path: seq<string>)
    decreases path
  {
    path == [] ||
    match Find(cells, path[0])
    case None => false
    case Some(p) =>
      var c := cells[p.cell];
      if Descends(c, p.alt) then IsValid(s, s.Cells(FieldOf(c, p.alt).kind.message), path[1..]) else path[1..] == []
  }

  ghost predicate ValidPlace(cells: seq<Cell>, p: Place) {
    p.cell < |cells| && (if cells[p.cell].OneOf? then p.alt < |cells[p.cell].alts| else p.alt == 0)
  }

  ghost predicate HasKey(cells: seq<Cell>, p: Place, key: string) {
    ValidPlace(cells, p) && (FieldOf(cells[p.cell], p.alt).name == key || FieldOf(cells[p.cell], p.alt).jsonName == key)
  }

  /** How entries are printed: which characters Go shows, and what stands behind a key. */
  datatype Printing = Printing(shown: Shown, text: Field -> string)

  /** The entries of one field: its name, and its JSON name if that is different. */
  function FieldEntries(pr: Printing, f: Field, p: Place): seq<T.Entry<Place>> {
    [T.Entry(f.name, pr.text(f), p)] + (if f.name != f.jsonName then [T.Entry(f.jsonName, pr.text(f), p)] else [])
  }

  function AltEntries(pr: Printing, alts: seq<Field>, cell: nat): seq<T.Entry<Place>> {
    if alts == [] then []
    else
      var n := |alts| - 1;
      AltEntries(pr, alts[..n], cell) + FieldEntries(pr, alts[n], Place(cell, n))
  }

  function CellEntries(pr: Printing, c: Cell, cell: nat): seq<T.Entry<Place>> {
    if c.OneOf? then AltEntries(pr, c.alts, cell) else FieldEntries(pr, c.f, Place(cell, 0))
  }

  function Entries(pr: Printing, cells: seq<Cell>): seq<T.Entry<Place>> {
    if cells == [] then []
    else
      var n := |cells| - 1;
      Entries(pr, cells[..n]) + CellEntries(pr, cells[n], n)
  }

  /** The emitted table of a message. */
  function Table(pr: Printing, cells: seq<Cell>): seq<T.Entry<Place>> {
    T.Sorted(pr.shown, Entries(pr, cells))
  }

  /** The emitted search for a field by name or JSON name. */
  function Search(pr: Printing, cells: seq<Cell>, key: string): Option<Place> {
    var t := Table(pr, cells);
    match T.Front(t, key)
    case None => None
    case Some(i) => if i < |t| then Some(t[i].value) else None
  }

  /** The conversion, given a way to find a field. */
  function ConvertBy(s: Schema, search: (seq<Cell>, string) -> Option<Place>, cells: seq<Cell>,
                     path: seq<string>): Option<seq<int>>
    decreases path
  {
    if path == [] then Some([])
    else
      match search(cells, path[0])
      case None => None
      case Some(p) =>
        if !(p.cell < |cells| && (cells[p.cell].OneOf? ==> p.alt < |cells[p.cell].alts|)) then None
        else
          var c := cells[p.cell];
          var f := FieldOf(c, p.alt);
          if !Descends(c, p.alt) then (if path[1..] == [] then Some([f.number]) else None)
          else
            match ConvertBy(s, search, s.Cells(f.kind.message), path[1..])
            case None => None
            case Some(ns) => Some([f.number] + ns)
  }

  /** The emitted conversion: by search in the table of each message on the way. */
  function Convert(s: Schema, pr: Printing, cells: seq<Cell>, path: seq<string>): Option<seq<int>> {
    ConvertBy(s, (cs, key) => Search(pr, cs, key), cells, path)
  }

  /** The conversion by declared name. */
  function ConvertNames(s: Schema, cells: seq<Cell>, path: seq<string>): Option<seq<int>> {
    ConvertBy(s, Find, cells, path)
  }

  /** What `lookup_field` hands out: the message itself, a list, a map or a value. */
  datatype Found = Message(cells: seq<CellVal>) | Container(cv: CellVal) | Plain(v: Value)

  /** The field and the message it leaves behind: an alternative that is not held is set to its
      default, and a null pointer on the way is filled in. */
  function Lookup(s: Schema, codec: Codec, cells: seq<Cell>, numbers: seq<int>,
                  m: seq<CellVal>): (Option<Found>, seq<CellVal>)
    requires |m| == |cells|
    decreases numbers
  {
    if numbers == [] then (Some(Message(m)), m)
    else
      var i := CellIndex(cells, numbers[0]);
      if i == |cells| then (None, m)
      else
        var c := cells[i];
        if c.Repeated? || c.MapOf? then (if |numbers| > 1 then None else Some(Container(m[i])), m)
        else
          var a := if c.OneOf? then AltIndex(c.alts, numbers[0]) else 0;
          if c.OneOf? && a == |c.alts| then (None, m)
          else
            var k := FieldOf(c, a).kind;
            var v := Held(s, codec, c, a, m[i]);
            if !k.MessageK? then (if |numbers| > 1 then None else Some(Plain(v)), m[i := Put(c, a, v)])
            else
              var inner := s.Cells(k.message);
              var d := Deref(s, codec, k, v);
              if !d.Msg? || |d.cells| != |inner| then (None, m)
              else
                var (found, d') := Lookup(s, codec, inner, numbers[1..], d.cells);
                (found, m[i := Put(c, a, Msg(d'))])
  }

  /** The value of the field, or the default an alternative that is not held is set to. */
  function Held(s: Schema, codec: Codec, c: Cell, a: nat, cv: CellVal): Value
    requires c.OneOf? ==> a < |c.alts|
  {
    if c.OneOf? then
      if cv.Alt? && cv.i == a then cv.v else DefaultKind(s, codec, c.alts[a].kind)
    else if cv.One? then cv.v else Null
  }

  function Put(c: Cell, a: nat, v: Value): CellVal {
    if c.OneOf? then Alt(a, v) else One(v)
  }

  // ---------------------------------------------------------------------------------------
  // The table holds the keys of the message
  // ---------------------------------------------------------------------------------------

  ghost predicate IsEntry(pr: Printing, cells: seq<Cell>, e: T.Entry<Place>) {
    HasKey(cells, e.value, e.key) && e.body == pr.text(FieldOf(cells[e.value.cell], e.value.alt))
  }

  lemma FieldEntriesAre(pr: Printing, f: Field, p: Place, e: T.Entry<Place>)
    ensures e in FieldEntries(pr, f, p) <==>
            e.value == p && (e.key == f.name || e.key == f.jsonName) && e.body == pr.text(f)
  {
    assert e == T.Entry(e.key, e.body, e.value);
  }

  lemma {:induction false} AltEntriesAre(pr: Printing, alts: seq<Field>, cell: nat, e: T.Entry<Place>)
    ensures e in AltEntries(pr, alts, cell) <==>
            e.value.cell == cell && e.value.alt < |alts| && e in FieldEntries(pr, alts[e.value.alt], e.value)
  {
    hide FieldEntries;
    if alts != [] {
      var n := |alts| - 1;
      AltEntriesAre(pr, alts[..n], cell, e);
      FieldEntriesAre(pr, alts[n], Place(cell, n), e);
      assert e.value == Place(e.value.cell, e.value.alt);
      assert e in AltEntries(pr, alts, cell) <==>
             e in AltEntries(pr, alts[..n], cell) || e in FieldEntries(pr, alts[n], Place(cell, n));
    }
  }

  lemma CellEntriesAre(pr: Printing, cells: seq<Cell>, n: nat, e: T.Entry<Place>)
    requires n < |cells|
    ensures e in CellEntries(pr, cells[n], n) <==> e.value.cell == n && IsEntry(pr, cells, e)
  {
    hide FieldEntries, AltEntries;
    var c := cells[n];
    assert e.value == Place(e.value.cell, e.value.alt);
    if c.OneOf? {
      AltEntriesAre(pr, c.alts, n, e);
      if e.value.alt < |c.alts| { FieldEntriesAre(pr, c.alts[e.value.alt], e.value, e); }
    } else {
      FieldEntriesAre(pr, c.f, Place(n, 0), e);
    }
  }

  lemma {:induction false} EntriesAre(pr: Printing, cells: seq<Cell>, n: nat, e: T.Entry<Place>)
    requires n <= |cells|
    ensures e in Entries(pr, cells[..n]) <==> e.value.cell < n && IsEntry(pr, cells, e)
  {
    hide CellEntries, IsEntry;
    if n > 0 {
      EntriesAre(pr, cells, n - 1, e);
      CellEntriesAre(pr, cells, n - 1, e);
      assert cells[..n][..n - 1] == cells[..n - 1];
      assert e in Entries(pr, cells[..n]) <==>
             e in Entries(pr, cells[..n - 1]) || e in CellEntries(pr, cells[n - 1], n - 1);
    }
  }

  /** The table holds exactly the names and JSON names of the fields. */
  lemma TableIs(pr: Printing, cells: seq<Cell>, e: T.Entry<Place>)
    ensures e in Table(pr, cells) <==> IsEntry(pr, cells, e)
  {
    hide Entries;
    assert cells[..|cells|] == cells;
    EntriesAre(pr, cells, |cells|, e);
    T.SortedHasSame(pr.shown, Entries(pr, cells), e);
    assert IsEntry(pr, cells, e) ==> e.value.cell < |cells|;
  }

  /** Whatever the search finds is a field of the message. */
  lemma FoundIsPlace(pr: Printing, cells: seq<Cell>, key: string)
    requires Search(pr, cells, key).Some?
    ensures ValidPlace(cells, Search(pr, cells, key).value)
  {
    hide Table, T.Front;
    var t := Table(pr, cells);
    var i := T.Front(t, key).value;
    TableIs(pr, cells, t[i]);
  }

  // ---------------------------------------------------------------------------------------
  // When the search finds every field by its keys
  // ---------------------------------------------------------------------------------------

  /** The search finds a field with the key, if there is one. */
  ghost predicate Resolves(pr: Printing, cells: seq<Cell>, key: string) {
    match Search(pr, cells, key)
    case None => forall p :: !HasKey(cells, p, key)
    case Some(p) => HasKey(cells, p, key)
  }

  /** No two keys of the message are misprinted. */
  ghost predicate KeysInOrder(shown: Shown, cells: seq<Cell>) {
    forall p, a, q, b :: HasKey(cells, p, a) && HasKey(cells, q, b) ==> !Misprinted(shown, a, b)
  }

  lemma TableHasKey(pr: Printing, cells: seq<Cell>, key: string)
    ensures T.HasKey(Table(pr, cells), key) <==> exists p :: HasKey(cells, p, key)
  {
    hide Table, HasKey;
    var t := Table(pr, cells);
    if T.HasKey(t, key) {
      var i :| 0 <= i < |t| && t[i].key == key;
      TableIs(pr, cells, t[i]);
      assert HasKey(cells, t[i].value, key);
    }
    if p :| HasKey(cells, p, key) {
      KeyIsInTable(pr, cells, p, key);
    }
  }

  lemma KeyIsInTable(pr: Printing, cells: seq<Cell>, p: Place, key: string)
    requires HasKey(cells, p, key)
    ensures exists i :: 0 <= i < |Table(pr, cells)| && Table(pr, cells)[i].key == key
  {
    hide Table;
    var e := T.Entry(key, pr.text(FieldOf(cells[p.cell], p.alt)), p);
    TableIs(pr, cells, e);
    var t := Table(pr, cells);
    var i :| 0 <= i < |t| && t[i] == e;
    assert t[i].key == key;
  }

  /** The emitted search leads to an entry with the given name or JSON name exactly when a field
      has it, for all keys, if and only if no two keys of the message are misprinted. */
  lemma TableIsRightExactly(pr: Printing, cells: seq<Cell>)
    ensures (forall key :: T.Right(Table(pr, cells), key)) <==> KeysInOrder(pr.shown, cells)
  {
    hide Misprinted, T.Right;
    TableIsPrintSorted(pr, cells);
    hide Table, HasKey;
    var t := Table(pr, cells);
    T.SearchIsRightExactly(pr.shown, t);
    if KeysInOrder(pr.shown, cells) {
      forall i, j | 0 <= i < |t| && 0 <= j < |t|
        ensures !Misprinted(pr.shown, t[i].key, t[j].key)
      {
        TableIs(pr, cells, t[i]);
        TableIs(pr, cells, t[j]);
        assert HasKey(cells, t[i].value, t[i].key) && HasKey(cells, t[j].value, t[j].key);
      }
    }
    if T.NoMisprints(pr.shown, t) {
      forall p, a, q, b | HasKey(cells, p, a) && HasKey(cells, q, b)
        ensures !Misprinted(pr.shown, a, b)
      {
        KeyIsInTable(pr, cells, p, a);
        KeyIsInTable(pr, cells, q, b);
        var i :| 0 <= i < |t| && t[i].key == a;
        var j :| 0 <= j < |t| && t[j].key == b;
      }
    }
  }

  lemma TableIsPrintSorted(pr: Printing, cells: seq<Cell>)
    ensures T.PrintSorted(pr.shown, Table(pr, cells))
  {
    hide Entries;
    T.SortedIsSorted(pr.shown, Entries(pr, cells));
  }

  /** Then every field is found by its keys. */
  lemma SearchResolves(pr: Printing, cells: seq<Cell>, key: string)
    requires KeysInOrder(pr.shown, cells)
    ensures Resolves(pr, cells, key)
  {
    TableIsRightExactly(pr, cells);
    hide Table, HasKey, T.Front, T.HasKey, KeysInOrder;
    var t := Table(pr, cells);
    assert T.Right(t, key);
    TableHasKey(pr, cells, key);
    if T.Front(t, key).Some? {
      TableIs(pr, cells, t[T.Front(t, key).value]);
    }
  }

  // ---------------------------------------------------------------------------------------
  // Converted paths can be looked up
  // ---------------------------------------------------------------------------------------

  /** The number of a field leads back to its place. */
  lemma NumberFindsPlace(s: Schema, cells: seq<Cell>, p: Place)
    requires s.GoodCells(cells) && ValidPlace(cells, p)
    ensures var c, n := cells[p.cell], FieldOf(cells[p.cell], p.alt).number;
            CellIndex(cells, n) == p.cell && (c.OneOf? ==> AltIndex(c.alts, n) == p.alt)
  {
    var c, n := cells[p.cell], FieldOf(cells[p.cell], p.alt).number;
    assert Numbers(c)[p.alt] == n;
    if c.OneOf? {
      var a := AltIndex(c.alts, n);
      assert a <= p.alt;
      assert Numbers(c)[a] == c.alts[a].number;
    }
  }

  lemma HeldIsTyped(s: Schema, codec: Codec, c: Cell, a: nat, cv: CellVal)
    requires s.WellFormed() && codec.Lawful() && s.GoodCell(c) && TypedCell(s, codec, c, cv)
    requires c.Singular? || (c.OneOf? && a < |c.alts|)
    ensures s.GoodKind(FieldOf(c, a).kind) && TypedKind(s, codec, FieldOf(c, a).kind, Held(s, codec, c, a, cv))
  {
    DefaultIsTyped(s, codec, FieldOf(c, a).kind);
  }

  /** One step of a lookup, into a message. */
  lemma LookupInside(s: Schema, codec: Codec, cells: seq<Cell>, p: Place, rest: seq<int>, m: seq<CellVal>)
    requires s.GoodCells(cells) && ValidPlace(cells, p) && |m| == |cells| && Descends(cells[p.cell], p.alt)
    requires var c := cells[p.cell];
             var k := FieldOf(c, p.alt).kind;
             var d := Deref(s, codec, k, Held(s, codec, c, p.alt, m[p.cell]));
             d.Msg? && |d.cells| == |s.Cells(k.message)|
    ensures var c := cells[p.cell];
            var k := FieldOf(c, p.alt).kind;
            var d := Deref(s, codec, k, Held(s, codec, c, p.alt, m[p.cell]));
            var (found, d') := Lookup(s, codec, s.Cells(k.message), rest, d.cells);
            Lookup(s, codec, cells, [FieldOf(c, p.alt).number] + rest, m) ==
              (found, m[p.cell := Put(c, p.alt, Msg(d'))])
  {
    NumberFindsPlace(s, cells, p);
    assert ([FieldOf(cells[p.cell], p.alt).number] + rest)[1..] == rest;
  }

  /** The last step of a lookup, to anything but a message. */
  lemma LookupLast(s: Schema, codec: Codec, cells: seq<Cell>, p: Place, m: seq<CellVal>)
    requires s.GoodCells(cells) && ValidPlace(cells, p) && |m| == |cells| && !Descends(cells[p.cell], p.alt)
    ensures var c := cells[p.cell];
            var v := Held(s, codec, c, p.alt, m[p.cell]);
            Lookup(s, codec, cells, [FieldOf(c, p.alt).number], m) ==
            if c.Repeated? || c.MapOf? then (Some(Container(m[p.cell])), m)
            else (Some(Plain(v)), m[p.cell := Put(c, p.alt, v)])
  {
    NumberFindsPlace(s, cells, p);
  }

  /** Whatever converts can be looked up, in every message of the type, even where the search
      finds another field than the one asked for. */
  lemma {:induction false} ConvertedPathIsFound(s: Schema, codec: Codec, pr: Printing, cells: seq<Cell>,
                                                path: seq<string>, m: seq<CellVal>)
    requires s.WellFormed() && codec.Lawful()
    requires s.GoodCells(cells) && TypedCells(s, codec, cells, m) && Convert(s, pr, cells, path).Some?
    ensures Lookup(s, codec, cells, Convert(s, pr, cells, path).value, m).0.Some?
    decreases path
  {
    hide Lookup, Search;
    if path == [] {
      EmptyLookup(s, codec, cells, m);
    } else {
      var p := Search(pr, cells, path[0]).value;
      FoundIsPlace(pr, cells, path[0]);
      var c := cells[p.cell];
      assert s.GoodCell(c) && TypedCell(s, codec, c, m[p.cell]);
      if Descends(c, p.alt) {
        HeldIsTyped(s, codec, c, p.alt, m[p.cell]);
        var k, v := FieldOf(c, p.alt).kind, Held(s, codec, c, p.alt, m[p.cell]);
        DerefIsTyped(s, codec, k, v);
        var inner := s.Cells(k.message);
        assert Convert(s, pr, inner, path[1..]).Some?;
        ConvertedPathIsFound(s, codec, pr, inner, path[1..], Deref(s, codec, k, v).cells);
        LookupInside(s, codec, cells, p, Convert(s, pr, inner, path[1..]).value, m);
      } else {
        LookupLast(s, codec, cells, p, m);
      }
    }
  }

  lemma EmptyLookup(s: Schema, codec: Codec, cells: seq<Cell>, m: seq<CellVal>)
    requires |m| == |cells|
    ensures Lookup(s, codec, cells, [], m) == (Some(Message(m)), m)
  {
  }

  // ---------------------------------------------------------------------------------------
  // Conversion agrees with validation
  // ---------------------------------------------------------------------------------------

  /** Names are unique in every message, and no JSON name is the name of another field. */
  ghost predicate NamesApart(cells: seq<Cell>) {
    forall p, q | ValidPlace(cells, p) && ValidPlace(cells, q) ::
      HasKey(cells, p, FieldOf(cells[q.cell], q.alt).name) ==> p == q
  }

  ghost predicate AllNamesApart(s: Schema) {
    forall m :: m in s.messages ==> NamesApart(s.messages[m])
  }

  /** No step of the path is a JSON name that is not also a declared name. */
  ghost predicate DeclaredNames(s: Schema, cells: seq<Cell>, path: seq<string>)
    decreases path
  {
    path == [] ||
    match Find(cells, path[0])
    case None => forall p :: !HasKey(cells, p, path[0])
    case Some(p) =>
      Descends(cells[p.cell], p.alt) ==> DeclaredNames(s, s.Cells(FieldOf(cells[p.cell], p.alt).kind.message),
        path[1..])
  }

  lemma {:induction false} FindComplete(cells: seq<Cell>, p: Place, name: string)
    requires ValidPlace(cells, p) && FieldOf(cells[p.cell], p.alt).name == name
    ensures Find(cells, name).Some? && ValidPlace(cells, Find(cells, name).value)
  {
    if p.cell > 0 && !(Find(cells, name).Some? && Find(cells, name).value.cell == 0) {
      FindComplete(cells[1..], Place(p.cell - 1, p.alt), name);
    }
  }

  lemma SearchIsFind(pr: Printing, cells: seq<Cell>, name: string)
    requires KeysInOrder(pr.shown, cells) && NamesApart(cells) && Find(cells, name).Some?
    ensures Search(pr, cells, name) == Find(cells, name)
  {
    hide Search, KeysInOrder;
    SearchResolves(pr, cells, name);
    var p := Find(cells, name).value;
    FindIsPlace(cells, name);
    assert HasKey(cells, p, name);
    var q := Search(pr, cells, name).value;
    assert HasKey(cells, q, name);
  }

  ghost predicate AllKeysInOrder(shown: Shown, s: Schema) {
    forall m :: m in s.messages ==> KeysInOrder(shown, s.messages[m])
  }

  /** On paths written with declared names, in a schema without misprinted keys, conversion
      succeeds if and only if the path is valid, and it is the conversion by declared name. */
  lemma {:induction false} ConvertsExactlyValidPaths(s: Schema, pr: Printing, cells: seq<Cell>, path: seq<string>)
    requires AllNamesApart(s) && NamesApart(cells) && AllKeysInOrder(pr.shown, s) && KeysInOrder(pr.shown, cells)
    requires DeclaredNames(s, cells, path)
    ensures Convert(s, pr, cells, path).Some? <==> IsValid(s, cells, path)
    ensures Convert(s, pr, cells, path) == ConvertNames(s, cells, path)
    decreases path
  {
    hide Search, KeysInOrder, NamesApart;
    if path != [] {
      match Find(cells, path[0])
      case None =>
        SearchResolves(pr, cells, path[0]);
      case Some(p) =>
        SearchIsFind(pr, cells, path[0]);
        var c := cells[p.cell];
        if Descends(c, p.alt) {
          var name := FieldOf(c, p.alt).kind.message;
          NoCellsAreApart(pr.shown);
          ConvertsExactlyValidPaths(s, pr, s.Cells(name), path[1..]);
          assert Convert(s, pr, s.Cells(name), path[1..]) == ConvertNames(s, s.Cells(name), path[1..]);
        }
    }
  }

  lemma NoCellsAreApart(shown: Shown)
    ensures NamesApart([]) && KeysInOrder(shown, [])
  {
  }

  ghost predicate IdentifierKeys(cells: seq<Cell>) {
    forall p, key :: HasKey(cells, p, key) ==> IsIdentifier(key)
  }

  /** Where JSON names are identifiers too, as they are unless a file sets others, the condition on
      the keys always holds. */
  lemma IdentifierPathsConvert(s: Schema, pr: Printing, cells: seq<Cell>, path: seq<string>)
    requires AllNamesApart(s) && NamesApart(cells) && DeclaredNames(s, cells, path)
    requires IdentifierKeys(cells) && forall m :: m in s.messages ==> IdentifierKeys(s.messages[m])
    ensures Convert(s, pr, cells, path).Some? <==> IsValid(s, cells, path)
    ensures Convert(s, pr, cells, path) == ConvertNames(s, cells, path)
  {
    hide IdentifierKeys, KeysInOrder, NamesApart, DeclaredNames, Convert, ConvertNames;
    IdentifierKeysInOrder(pr.shown, cells);
    forall m | m in s.messages
      ensures KeysInOrder(pr.shown, s.messages[m])
    {
      IdentifierKeysInOrder(pr.shown, s.messages[m]);
    }
    ConvertsExactlyValidPaths(s, pr, cells, path);
  }

  lemma IdentifierKeysInOrder(shown: Shown, cells: seq<Cell>)
    requires IdentifierKeys(cells)
    ensures KeysInOrder(shown, cells)
  {
    hide HasKey, IsIdentifier;
    forall p, a, q, b | HasKey(cells, p, a) && HasKey(cells, q, b) ensures !Misprinted(shown, a, b) {
      IdentifiersPrintInOrder(shown, a, b);
    }
  }

  // ---------------------------------------------------------------------------------------
  // A valid path that does not convert
  // ---------------------------------------------------------------------------------------

  function MessageA(): seq<Cell> {
    [Singular(Field(1, "a", "a", MessageK("B", false))), Singular(Field(2, "b", "a!", ScalarK(BoolKind)))]
  }

  function MessageB(): seq<Cell> {
    [Singular(Field(1, "x", "x", ScalarK(BoolKind)))]
  }

  lemma TableOfA(pr: Printing)
    ensures var t := Table(pr, MessageA());
            |t| == 3 && t[0].key == "a!" && t[1].key == "a" && t[2].key == "b" && t[0].value == Place(1, 0)
  {
    hide T.Text, Misprinted, Less;
    var cells := MessageA();
    var f, g := cells[0].f, cells[1].f;
    var a, b := T.Entry("a", pr.text(f), Place(0, 0)), T.Entry("b", pr.text(g), Place(1, 0));
    var c := T.Entry("a!", pr.text(g), Place(1, 0));
    assert Entries(pr, cells) == [a, b, c] by {
      assert cells[..1][..0] == [] && cells[..1] == [cells[0]];
      assert FieldEntries(pr, f, Place(0, 0)) == [a] && FieldEntries(pr, g, Place(1, 0)) == [b, c];
      assert Entries(pr, []) == [] && Entries(pr, cells[..1]) == [] + [a];
    }
    TextsOfA(pr.shown, a, b, c);
    SortOfA(pr.shown, a, b, c);
  }

  lemma TextsOfA(shown: Shown, a: T.Entry<Place>, b: T.Entry<Place>, c: T.Entry<Place>)
    requires a.key == "a" && b.key == "b" && c.key == "a!"
    ensures !Less(T.Text(shown, b), T.Text(shown, a)) && Less(T.Text(shown, c), T.Text(shown, b))
    ensures Less(T.Text(shown, c), T.Text(shown, a))
  {
    IdentifiersPrintInOrder(shown, "a", "b");
    IdentifiersPrintInOrder(shown, "b", "a");
    T.TextsAreOrdered(shown, b, a);
    SwappedBare(shown, 'a', 'b');
    assert !Misprinted(shown, "a!", "b") && !Misprinted(shown, "b", "a!");
    T.TextsAreOrdered(shown, c, b);
    assert "a"[1..] == "" && "a!"[1..] == "!";
    assert Misprinted(shown, "", "!");
    MisprintedIsBackwards(shown, "a", a.body, "a!", c.body);
  }

  lemma SortOfA(shown: Shown, a: T.Entry<Place>, b: T.Entry<Place>, c: T.Entry<Place>)
    requires !Less(T.Text(shown, b), T.Text(shown, a)) && Less(T.Text(shown, c), T.Text(shown, b))
    requires Less(T.Text(shown, c), T.Text(shown, a))
    ensures T.Sorted(shown, [a, b, c]) == [c, a, b]
  {
    hide Less, T.Text;
    assert [a, b, c][..2] == [a, b] && [a, b][..1] == [a] && [a][..0] == [];
    assert T.Sorted(shown, [a]) == [a] by { assert T.Sorted(shown, [a][..0]) == []; }
    assert T.Sorted(shown, [a, b]) == [a, b];
    assert T.Insert(shown, [a], c) == [c, a] by { assert T.Insert(shown, [a][..0], c) == [c]; }
    assert T.Insert(shown, [a, b], c) == [c, a, b];
  }

  /** The path `a.x` is valid, and the names are apart, but the search for `a` ends at the JSON
      name `a!` of another field, and the path does not convert. */
  lemma ValidPathIsLost(s: Schema, pr: Printing)
    requires s.messages == map["A" := MessageA(), "B" := MessageB()]
    ensures AllNamesApart(s) && NamesApart(MessageA()) && DeclaredNames(s, MessageA(), ["a", "x"])
    ensures IsValid(s, MessageA(), ["a", "x"]) && Convert(s, pr, MessageA(), ["a", "x"]).None?
  {
    var cells, path := MessageA(), ["a", "x"];
    assert path[1..] == ["x"] && ["x"][1..] == [];
    assert Find(cells, "a") == Some(Place(0, 0)) && Find(MessageB(), "x") == Some(Place(0, 0));
    TableOfA(pr);
    hide Table, Misprinted;
    var t := Table(pr, cells);
    assert Less("a", "a") == false && Less("a!", "a") == false && Less("a", "b") by {
      assert "a"[1..] == "" && "a!"[1..] == "!";
    }
    assert T.LowerBound(t, "a", 0, 0) == 0 && T.LowerBound(t, "a", 0, 1) == 0;
    assert T.FrontIn(t, "a", 0, 3) == Some(0);
    assert T.Front(t, "a") == Some(0);
    assert Search(pr, cells, "a") == Some(Place(1, 0));
    NamesOfAB();
  }

  lemma NamesOfAB()
    ensures NamesApart(MessageA()) && NamesApart(MessageB())
  {
    assert forall p: Place :: p == Place(p.cell, p.alt);
  }

  // ---------------------------------------------------------------------------------------
  // The field that is found is the field that the path selects
  // ---------------------------------------------------------------------------------------

  ghost predicate Matches(found: Found, leaf: Leaf) {
    match found
    case Message(cells) => leaf == Whole(cells) || leaf == Part(One(Msg(cells)))
    case Container(cv) => leaf == Part(cv)
    case Plain(v) => leaf == Part(One(v))
  }

  lemma {:induction false} FoundIsSelected(s: Schema, codec: Codec, cells: seq<Cell>, path: seq<string>,
                                           m: seq<CellVal>)
    requires s.WellFormed() && codec.Lawful() && s.GoodCells(cells) && TypedCells(s, codec, cells, m)
    requires ConvertNames(s, cells, path).Some?
    ensures var r := Lookup(s, codec, cells, ConvertNames(s, cells, path).value, m);
            r.0.Some? && |r.1| == |cells| && Matches(r.0.value, Get(s, codec, cells, path, r.1))
    decreases path
  {
    hide Lookup, Get, GetField, TypedKind;
    if path == [] {
      EmptyLookup(s, codec, cells, m);
      GetWhole(s, codec, cells, m);
    } else {
      var p := Find(cells, path[0]).value;
      FindIsPlace(cells, path[0]);
      var c := cells[p.cell];
      assert s.GoodCell(c) && TypedCell(s, codec, c, m[p.cell]);
      if Descends(c, p.alt) {
        HeldIsTyped(s, codec, c, p.alt, m[p.cell]);
        var k, v := FieldOf(c, p.alt).kind, Held(s, codec, c, p.alt, m[p.cell]);
        DerefIsTyped(s, codec, k, v);
        var inner, d := s.Cells(k.message), Deref(s, codec, k, v);
        FoundIsSelected(s, codec, inner, path[1..], d.cells);
        var rest := ConvertNames(s, inner, path[1..]).value;
        LookupInside(s, codec, cells, p, rest, m);
        var (found, d') := Lookup(s, codec, inner, rest, d.cells);
        GetPut(s, codec, cells, path, m, p, Msg(d'));
        GetInside(s, codec, k, path[1..], d');
      } else {
        LookupLast(s, codec, cells, p, m);
        GetLast(s, codec, cells, path, m, p);
      }
    }
  }

  lemma GetWhole(s: Schema, codec: Codec, cells: seq<Cell>, m: seq<CellVal>)
    requires |m| == |cells|
    ensures Get(s, codec, cells, [], m) == Whole(m)
  {
  }

  lemma GetPut(s: Schema, codec: Codec, cells: seq<Cell>, path: seq<string>, m: seq<CellVal>, p: Place, v: Value)
    requires |m| == |cells| && path != [] && Find(cells, path[0]) == Some(p)
    requires cells[p.cell].Singular? || cells[p.cell].OneOf?
    ensures Get(s, codec, cells, path, m[p.cell := Put(cells[p.cell], p.alt, v)]) ==
            GetField(s, codec, FieldOf(cells[p.cell], p.alt).kind, path[1..], v)
  {
  }

  lemma GetInside(s: Schema, codec: Codec, k: Kind, path: seq<string>, d: seq<CellVal>)
    requires k.MessageK? && |d| == |s.Cells(k.message)|
    ensures GetField(s, codec, k, path, Msg(d)) ==
            if path == [] then Part(One(Msg(d))) else Get(s, codec, s.Cells(k.message), path, d)
    ensures path == [] ==> Get(s, codec, s.Cells(k.message), path, d) == Whole(d)
  {
  }

  lemma GetLast(s: Schema, codec: Codec, cells: seq<Cell>, path: seq<string>, m: seq<CellVal>, p: Place)
    requires |m| == |cells| && |path| == 1 && Find(cells, path[0]) == Some(p) && !Descends(cells[p.cell], p.alt)
    ensures var c := cells[p.cell];
            var v := Held(s, codec, c, p.alt, m[p.cell]);
            if c.Repeated? || c.MapOf? then Get(s, codec, cells, path, m) == Part(m[p.cell])
            else Get(s, codec, cells, path, m[p.cell := Put(c, p.alt, v)]) == Part(One(v))
  {
    var c := cells[p.cell];
    if c.Singular? || c.OneOf? { GetPut(s, codec, cells, path, m, p, Held(s, codec, c, p.alt, m[p.cell])); }
  }

  lemma {:induction false} FindIsPlace(cells: seq<Cell>, name: string)
    requires Find(cells, name).Some?
    ensures ValidPlace(cells, Find(cells, name).value)
  {
    if Find(cells, name).value.cell > 0 { FindIsPlace(cells[1..], name); }
  }

  // ---------------------------------------------------------------------------------------
  // Lookup hands out what the message held
  // ---------------------------------------------------------------------------------------

  /** Every alternative on the path is held, and every message on it is there. */
  ghost predicate FullyHeld(s: Schema, cells: seq<Cell>, path: seq<string>, m: seq<CellVal>)
    requires |m| == |cells|
    decreases path
  {
    path == [] ||
    match Find(cells, path[0])
    case None => false
    case Some(p) =>
      var c, cv := cells[p.cell], m[p.cell];
      if c.Repeated? || c.MapOf? then true
      else
        && (if c.OneOf? then cv.Alt? && cv.i == p.alt else cv.One?)
        && (FieldOf(c, p.alt).kind.MessageK? ==>
              var inner := s.Cells(FieldOf(c, p.alt).kind.message);
              cv.v.Msg? && |cv.v.cells| == |inner| && FullyHeld(s, inner, path[1..], cv.v.cells))
  }

  /** Where everything on the path is there, lookup leaves the message alone, and what it returns is
      what the path selects in it. */
  lemma {:induction false} HeldPathIsLeftAlone(s: Schema, codec: Codec, cells: seq<Cell>, path: seq<string>,
                                               m: seq<CellVal>)
    requires s.WellFormed() && codec.Lawful() && s.GoodCells(cells) && TypedCells(s, codec, cells, m)
    requires ConvertNames(s, cells, path).Some? && FullyHeld(s, cells, path, m)
    ensures var r := Lookup(s, codec, cells, ConvertNames(s, cells, path).value, m);
            r.0.Some? && r.1 == m && Matches(r.0.value, Get(s, codec, cells, path, m))
    decreases path
  {
    FoundIsSelected(s, codec, cells, path, m);
    hide Lookup, Get, GetField, TypedKind, Matches;
    if path == [] {
      EmptyLookup(s, codec, cells, m);
    } else {
      var p := Find(cells, path[0]).value;
      FindIsPlace(cells, path[0]);
      var c := cells[p.cell];
      assert s.GoodCell(c) && TypedCell(s, codec, c, m[p.cell]);
      HeldIsThere(s, codec, c, p.alt, m[p.cell]);
      if Descends(c, p.alt) {
        HeldIsTyped(s, codec, c, p.alt, m[p.cell]);
        var k, v := FieldOf(c, p.alt).kind, m[p.cell].v;
        DerefIsTyped(s, codec, k, v);
        var inner := s.Cells(k.message);
        HeldPathIsLeftAlone(s, codec, inner, path[1..], v.cells);
        LookupInside(s, codec, cells, p, ConvertNames(s, inner, path[1..]).value, m);
        assert m[p.cell := m[p.cell]] == m;
      } else {
        LookupLast(s, codec, cells, p, m);
        assert m[p.cell := m[p.cell]] == m;
      }
    }
  }

  /** A value that is held is the value of the field, and putting it back changes nothing. */
  lemma HeldIsThere(s: Schema, codec: Codec, c: Cell, a: nat, cv: CellVal)
    requires c.OneOf? ==> a < |c.alts|
    ensures (c.Singular? && cv.One?) || (c.OneOf? && cv.Alt? && cv.i == a) ==>
              Held(s, codec, c, a, cv) == cv.v && Put(c, a, cv.v) == cv
  {
  }

  /** An alternative that is not held is looked up as if its default were held. */
  lemma UnheldIsDefaulted(s: Schema, codec: Codec, cells: seq<Cell>, p: Place, rest: seq<int>, m: seq<CellVal>)
    requires s.GoodCells(cells) && ValidPlace(cells, p) && |m| == |cells| && cells[p.cell].OneOf?
    requires !(m[p.cell].Alt? && m[p.cell].i == p.alt)
    ensures var f := FieldOf(cells[p.cell], p.alt);
            var filled := m[p.cell := Alt(p.alt, DefaultKind(s, codec, f.kind))];
            var r := Lookup(s, codec, cells, [f.number] + rest, m);
            r.0.Some? ==> r == Lookup(s, codec, cells, [f.number] + rest, filled)
  {
    NumberFindsPlace(s, cells, p);
    var f := FieldOf(cells[p.cell], p.alt);
    var filled := m[p.cell := Alt(p.alt, DefaultKind(s, codec, f.kind))];
    var numbers := [f.number] + rest;
    assert numbers[0] == f.number && numbers[1..] == rest;
    var v := DefaultKind(s, codec, f.kind);
    PutTwice(m, p.cell, Alt(p.alt, v), Alt(p.alt, v));
    if f.kind.MessageK? {
      var inner, d := s.Cells(f.kind.message), Deref(s, codec, f.kind, v);
      if d.Msg? && |d.cells| == |inner| {
        PutTwice(m, p.cell, Alt(p.alt, v), Alt(p.alt, Msg(Lookup(s, codec, inner, rest, d.cells).1)));
      }
    }
  }

  lemma PutTwice(m: seq<CellVal>, i: nat, x: CellVal, y: CellVal)
    requires i < |m|
    ensures m[i := x][i := y] == m[i := y]
  {
  }

  /** A null pointer is looked up as if it pointed to a default message. */
  lemma NullIsDefaulted(s: Schema, codec: Codec, cells: seq<Cell>, p: Place, rest: seq<int>, m: seq<CellVal>)
    requires s.GoodCells(cells) && ValidPlace(cells, p) && |m| == |cells| && Descends(cells[p.cell], p.alt)
    requires FieldOf(cells[p.cell], p.alt).kind.ptr && Held(s, codec, cells[p.cell], p.alt, m[p.cell]).Null?
    ensures var f := FieldOf(cells[p.cell], p.alt);
            var message := DefaultKind(s, codec, MessageK(f.kind.message, false));
            var filled := m[p.cell := if cells[p.cell].OneOf? then Alt(p.alt, message) else One(message)];
            var r := Lookup(s, codec, cells, [f.number] + rest, m);
            r.0.Some? ==> r == Lookup(s, codec, cells, [f.number] + rest, filled)
  {
    NumberFindsPlace(s, cells, p);
    var c, f := cells[p.cell], FieldOf(cells[p.cell], p.alt);
    var message := DefaultKind(s, codec, MessageK(f.kind.message, false));
    var filled := m[p.cell := if c.OneOf? then Alt(p.alt, message) else One(message)];
    var numbers := [f.number] + rest;
    assert numbers[0] == f.number && numbers[1..] == rest;
    var inner := s.Cells(f.kind.message);
    if message.Msg? && |message.cells| == |inner| {
      PutTwice(m, p.cell, Put(c, p.alt, message), Put(c, p.alt, Msg(Lookup(s, codec, inner, rest, message.cells).1)));
    }
  }

  /** Off the path lookup leaves the message alone in any case. */
  lemma {:induction false} LookupKeepsOffPath(s: Schema, codec: Codec, cells: seq<Cell>, path: seq<string>,
                                              m: seq<CellVal>)
    requires s.WellFormed() && codec.Lawful() && s.GoodCells(cells) && TypedCells(s, codec, cells, m)
    requires ConvertNames(s, cells, path).Some?
    ensures var r := Lookup(s, codec, cells, ConvertNames(s, cells, path).value, m);
            |r.1| == |cells| && SameOff(s, codec, cells, path, m, r.1)
    decreases path
  {
    hide Lookup, TypedKind;
    if path == [] {
      EmptyLookup(s, codec, cells, m);
    } else {
      var p := Find(cells, path[0]).value;
      FindIsPlace(cells, path[0]);
      var c := cells[p.cell];
      assert s.GoodCell(c) && TypedCell(s, codec, c, m[p.cell]);
      if Descends(c, p.alt) {
        HeldIsTyped(s, codec, c, p.alt, m[p.cell]);
        var k, v := FieldOf(c, p.alt).kind, Held(s, codec, c, p.alt, m[p.cell]);
        DerefIsTyped(s, codec, k, v);
        var inner, d := s.Cells(k.message), Deref(s, codec, k, v);
        var rest := ConvertNames(s, inner, path[1..]).value;
        LookupKeepsOffPath(s, codec, inner, path[1..], d.cells);
        LookupInside(s, codec, cells, p, rest, m);
        var (found, d') := Lookup(s, codec, inner, rest, d.cells);
        assert FieldSameOff(s, codec, k, path[1..], v, Msg(d'));
        assert CellSameOff(s, codec, c, p.alt, path[1..], m[p.cell], Put(c, p.alt, Msg(d')));
      } else {
        LookupLast(s, codec, cells, p, m);
        var v := Held(s, codec, c, p.alt, m[p.cell]);
        var cv := if c.Repeated? || c.MapOf? then m[p.cell] else Put(c, p.alt, v);
        assert path[1..] == [];
        assert CellSameOff(s, codec, c, p.alt, path[1..], m[p.cell], cv);
        assert m[p.cell := m[p.cell]] == m;
      }
    }
  }
}
