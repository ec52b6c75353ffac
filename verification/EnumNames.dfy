/**
  * Reading an enum by name: the emitted table of value names, which leaves out aliases.
  */
module EnumNames {
  import opened Wrappers
  import opened Quoting
  import opened SortedTables

  datatype EnumValue = EnumValue(name: string, number: int)

  /** The first value declared with its number; the others are aliases of it. */
  ghost predicate IsFirst(values: seq<EnumValue>, i: nat)
    requires i < |values|
  {
    forall j :: 0 <= j < i ==> values[j].number != values[i].number
  }

  predicate HasNumber(values: seq<EnumValue>, number: int) {
    exists j :: 0 <= j < |values| && values[j].number == number
  }

  /** The table entries; `text` is what is printed behind a name. */
  function Entries(text: EnumValue -> string, values: seq<EnumValue>): seq<Entry<int>> {
    if values == [] then []
    else
      var rest, v := values[..|values| - 1], values[|values| - 1];
      Entries(text, rest) + (if HasNumber(rest, v.number) then [] else [EntryOf(text, v)])
  }

  /** What a name is read as; names that are not found are read as zero. */
  function ReadName(shown: Shown, text: EnumValue -> string, values: seq<EnumValue>, name: string): int {
    var t := Sorted(shown, Entries(text, values));
    match Front(t, name)
    case None => 0
    case Some(i) => if i < |t| then t[i].value else 0
  }

  function EntryOf(text: EnumValue -> string, v: EnumValue): Entry<int> {
    Entry(v.name, text(v), v.number)
  }

  /** The entry is that of a value which is no alias. */
  ghost predicate IsEntry(text: EnumValue -> string, values: seq<EnumValue>, e: Entry<int>) {
    exists i :: 0 <= i < |values| && IsFirst(values, i) && e == EntryOf(text, values[i])
  }

  lemma FirstInPrefix(values: seq<EnumValue>, n: nat, i: nat)
    requires i < n <= |values|
    ensures IsFirst(values, i) <==> IsFirst(values[..n], i)
    ensures values[..n][i] == values[i]
  {
  }

  lemma LastIsFirst(values: seq<EnumValue>)
    requires values != []
    ensures var n := |values| - 1; IsFirst(values, n) <==> !HasNumber(values[..n], values[n].number)
  {
    var n := |values| - 1;
    var rest := values[..n];
    assert forall j :: 0 <= j < n ==> values[j] == rest[j];
  }

  lemma {:induction false} EntriesAre(text: EnumValue -> string, values: seq<EnumValue>, e: Entry<int>)
    ensures e in Entries(text, values) <==> IsEntry(text, values, e)
  {
    hide IsFirst, HasNumber, EntryOf;
    if values != [] {
      var n := |values| - 1;
      var rest, v := values[..n], values[n];
      EntriesAre(text, rest, e);
      LastIsFirst(values);
      forall i | 0 <= i < n
        ensures IsFirst(values, i) <==> IsFirst(rest, i)
        ensures rest[i] == values[i]
      {
        FirstInPrefix(values, n, i);
      }
      assert IsEntry(text, values, e) <==> IsEntry(text, rest, e) || (IsFirst(values, n) && e == EntryOf(text, v));
    }
  }

  /** A declared name is read as its number if and only if it is not an alias, or its number is
      zero: an alias silently becomes the zero value. */
  lemma {:induction false} NameIsReadExactly(shown: Shown, text: EnumValue -> string, values: seq<EnumValue>, i: nat)
    requires i < |values| && (forall j :: 0 <= j < |values| ==> IsIdentifier(values[j].name))
    requires forall j, k :: 0 <= j < k < |values| ==> values[j].name != values[k].name
    ensures ReadName(shown, text, values, values[i].name) == if IsFirst(values, i) then values[i].number else 0
  {
    hide Less, Text, Sorted, Entries, IsIdentifier, Front;
    var es := Entries(text, values);
    var t, name := Sorted(shown, es), values[i].name;
    NameIsFoundExactly(shown, text, values, name);
    if Front(t, name).Some? {
      var p := Front(t, name).value;
      SortedHasSame(shown, es, t[p]);
      EntriesAre(text, values, t[p]);
    }
  }

  /** The search finds a name exactly when a value has it that is no alias. */
  lemma {:induction false} NameIsFoundExactly(shown: Shown, text: EnumValue -> string, values: seq<EnumValue>,
                                              name: string)
    requires forall j :: 0 <= j < |values| ==> IsIdentifier(values[j].name)
    ensures Right(Sorted(shown, Entries(text, values)), name)
    ensures HasKey(Sorted(shown, Entries(text, values)), name) <==>
            exists i :: 0 <= i < |values| && IsFirst(values, i) && values[i].name == name
  {
    hide Less, Text, Sorted, Entries, IsIdentifier, Front;
    var es := Entries(text, values);
    var t := Sorted(shown, es);
    SortedIsSorted(shown, es);
    forall p | 0 <= p < |t|
      ensures exists i :: 0 <= i < |values| && IsFirst(values, i) && values[i].name == t[p].key
    {
      SortedHasSame(shown, es, t[p]);
      EntriesAre(text, values, t[p]);
    }
    IdentifierTablesAreSorted(shown, t);
    SortedSearchIsRight(t, name);
    forall i | 0 <= i < |values| && IsFirst(values, i) && values[i].name == name
      ensures HasKey(t, name)
    {
      var e := EntryOf(text, values[i]);
      EntriesAre(text, values, e);
      SortedHasSame(shown, es, e);
      var p :| 0 <= p < |t| && t[p] == e;
    }
  }

  /** An alias at its smallest. */
  lemma AliasIsLost(shown: Shown, text: EnumValue -> string)
    ensures ReadName(shown, text, [EnumValue("ZERO", 0), EnumValue("ONE", 1), EnumValue("UNO", 1)], "UNO") == 0
  {
    hide ReadName;
    var values := [EnumValue("ZERO", 0), EnumValue("ONE", 1), EnumValue("UNO", 1)];
    assert values[1].number == values[2].number;
    NameIsReadExactly(shown, text, values, 2);
  }
}
