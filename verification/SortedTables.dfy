/**
  * The key tables of the emitted code.  The plugin sorts the printed entries as text; the emitted
  * binary search compares keys, and is right for every key exactly when no two keys of the table
  * are misprinted.
  */
module SortedTables {
  import opened Wrappers
  import opened Quoting

  /** An entry: its key, the rest of its text, and what it leads to. */
  datatype Entry<V> = Entry(key: string, body: string, value: V)

  function Text<V>(shown: Shown, e: Entry<V>): string {
    Format(shown, e.key, e.body)
  }

  /** Sorted as printed text. */
  ghost predicate PrintSorted<V>(shown: Shown, t: seq<Entry<V>>) {
    forall i, j :: 0 <= i < j < |t| ==> !Less(Text(shown, t[j]), Text(shown, t[i]))
  }

  ghost predicate KeySorted<V>(t: seq<Entry<V>>) {
    forall i, j :: 0 <= i < j < |t| ==> !Less(t[j].key, t[i].key)
  }

  ghost predicate NoMisprints<V>(shown: Shown, t: seq<Entry<V>>) {
    forall i, j :: 0 <= i < |t| && 0 <= j < |t| ==> !Misprinted(shown, t[i].key, t[j].key)
  }

  ghost predicate HasKey<V>(t: seq<Entry<V>>, key: string) {
    exists i :: 0 <= i < |t| && t[i].key == key
  }

  // ---------------------------------------------------------------------------------------
  // Sorting text and sorting keys
  // ---------------------------------------------------------------------------------------

  /** A table sorted as text is sorted by key if and only if it holds no misprinted pair. */
  lemma TextSortIsKeySort<V>(shown: Shown, t: seq<Entry<V>>)
    requires PrintSorted(shown, t)
    ensures KeySorted(t) <==> NoMisprints(shown, t)
  {
    hide Less, Misprinted, Format;
    if NoMisprints(shown, t) {
      forall i, j | 0 <= i < j < |t|
        ensures !Less(t[j].key, t[i].key)
      {
        if t[i].key == t[j].key {
          LessIrreflexive(t[i].key);
        } else {
          PrintedOrderIsKeyOrder(shown, t[j].key, t[j].body, t[i].key, t[i].body);
          assert !Less(Text(shown, t[j]), Text(shown, t[i]));
        }
      }
    } else {
      var i, j :| 0 <= i < |t| && 0 <= j < |t| && Misprinted(shown, t[i].key, t[j].key);
      MisprintedMeansLess(shown, t[i].key, t[j].key);
      MisprintedIsBackwards(shown, t[i].key, t[i].body, t[j].key, t[j].body);
      assert Less(Text(shown, t[j]), Text(shown, t[i]));
      assert j < i;
    }
  }

  /** Entries with different keys are printed one before the other. */
  lemma TextsAreOrdered<V>(shown: Shown, d: Entry<V>, e: Entry<V>)
    requires d.key != e.key
    ensures Less(Text(shown, d), Text(shown, e)) <==> !Less(Text(shown, e), Text(shown, d))
    ensures Less(Text(shown, d), Text(shown, e)) <==>
            (Less(d.key, e.key) <==> !Misprinted(shown, d.key, e.key) && !Misprinted(shown, e.key, d.key))
  {
    hide Less, Misprinted, Format;
    LessTotal(d.key, e.key);
    PrintedOrderIsKeyOrder(shown, d.key, d.body, e.key, e.body);
    PrintedOrderIsKeyOrder(shown, e.key, e.body, d.key, d.body);
  }

  /** Entries with the same key stand together. */
  lemma SameKeysTogether<V>(shown: Shown, t: seq<Entry<V>>, i: nat, m: nat, j: nat)
    requires PrintSorted(shown, t) && i < m < j < |t| && t[i].key == t[j].key
    ensures t[m].key == t[i].key
  {
    hide Less, Misprinted, Text;
    if t[m].key != t[i].key {
      TextsAreOrdered(shown, t[i], t[m]);
      TextsAreOrdered(shown, t[j], t[m]);
    }
  }

  /** So tables keyed by field names and enum value names are always fit for searching. */
  lemma IdentifierTablesAreSorted<V>(shown: Shown, t: seq<Entry<V>>)
    requires PrintSorted(shown, t) && forall i :: 0 <= i < |t| ==> IsIdentifier(t[i].key)
    ensures KeySorted(t) && NoMisprints(shown, t)
  {
    hide Less, Misprinted, Format, IsIdentifier;
    forall i, j | 0 <= i < |t| && 0 <= j < |t|
      ensures !Misprinted(shown, t[i].key, t[j].key)
    {
      IdentifiersPrintInOrder(shown, t[i].key, t[j].key);
    }
    TextSortIsKeySort(shown, t);
  }

  // ---------------------------------------------------------------------------------------
  // The plugin's sort
  // ---------------------------------------------------------------------------------------

  function Insert<V>(shown: Shown, t: seq<Entry<V>>, e: Entry<V>): seq<Entry<V>> {
    if t == [] then [e]
    else
      var n := |t| - 1;
      if Less(Text(shown, e), Text(shown, t[n])) then Insert(shown, t[..n], e) + [t[n]] else t + [e]
  }

  /** The entries in the order of their text. */
  function Sorted<V>(shown: Shown, es: seq<Entry<V>>): seq<Entry<V>> {
    if es == [] then [] else Insert(shown, Sorted(shown, es[..|es| - 1]), es[|es| - 1])
  }

  lemma {:induction false} InsertKeeps<V>(shown: Shown, t: seq<Entry<V>>, e: Entry<V>)
    requires PrintSorted(shown, t)
    ensures PrintSorted(shown, Insert(shown, t, e))
    ensures multiset(Insert(shown, t, e)) == multiset(t) + multiset{e}
  {
    hide Less, Text;
    if t != [] {
      var n := |t| - 1;
      var rest := Insert(shown, t[..n], e);
      InsertKeeps(shown, t[..n], e);
      assert t == t[..n] + [t[n]];
      if Less(Text(shown, e), Text(shown, t[n])) {
        forall i | 0 <= i < |rest|
          ensures !Less(Text(shown, t[n]), Text(shown, rest[i]))
        {
          assert rest[i] in multiset(rest);
          if rest[i] == e {
            LessTotal(Text(shown, e), Text(shown, t[n]));
          } else {
            assert rest[i] in t[..n];
          }
        }
      } else {
        forall i | 0 <= i < |t|
          ensures !Less(Text(shown, e), Text(shown, t[i]))
        {
          if i < n { NotLessTransitive(Text(shown, e), Text(shown, t[n]), Text(shown, t[i])); }
        }
      }
    }
  }

  lemma NotLessTransitive(a: string, b: string, c: string)
    requires !Less(a, b) && !Less(b, c)
    ensures !Less(a, c)
  {
    LessTotal(a, b);
    LessTotal(b, c);
    if Less(a, c) && Less(b, a) { LessTransitive(b, a, c); }
  }

  lemma {:induction false} SortedIsSorted<V>(shown: Shown, es: seq<Entry<V>>)
    ensures PrintSorted(shown, Sorted(shown, es)) && multiset(Sorted(shown, es)) == multiset(es)
  {
    hide Insert;
    if es != [] {
      var n := |es| - 1;
      SortedIsSorted(shown, es[..n]);
      InsertKeeps(shown, Sorted(shown, es[..n]), es[n]);
      assert es == es[..n] + [es[n]];
    }
  }

  lemma SortedHasSame<V>(shown: Shown, es: seq<Entry<V>>, e: Entry<V>)
    ensures e in Sorted(shown, es) <==> e in es
  {
    hide Sorted;
    SortedIsSorted(shown, es);
    assert e in Sorted(shown, es) <==> e in multiset(Sorted(shown, es));
    assert e in es <==> e in multiset(es);
  }

  // ---------------------------------------------------------------------------------------
  // The emitted search
  // ---------------------------------------------------------------------------------------

  function LowerBound<V>(t: seq<Entry<V>>, key: string, lo: nat, hi: nat): (r: nat)
    requires lo <= hi <= |t|
    ensures lo <= r <= hi
    decreases hi - lo
  {
    if lo == hi then lo
    else
      var mid := (lo + hi) / 2;
      if Less(t[mid].key, key) then LowerBound(t, key, mid + 1, hi) else LowerBound(t, key, lo, mid)
  }

  /** The front of the equal range: a three-way search down to the first equal entry met, and from
      there to the lower end.  Without an equal entry the range is empty. */
  function FrontIn<V>(t: seq<Entry<V>>, key: string, lo: nat, hi: nat): (r: Option<nat>)
    requires lo <= hi <= |t|
    ensures r.Some? ==> lo <= r.value < hi
    decreases hi - lo
  {
    if lo == hi then None
    else
      var mid := (lo + hi) / 2;
      if Less(t[mid].key, key) then FrontIn(t, key, mid + 1, hi)
      else if Less(key, t[mid].key) then FrontIn(t, key, lo, mid)
      else Some(LowerBound(t, key, lo, mid))
  }

  function Front<V>(t: seq<Entry<V>>, key: string): Option<nat> {
    FrontIn(t, key, 0, |t|)
  }

  method EqualRangeFront<V>(t: seq<Entry<V>>, key: string) returns (r: Option<nat>)
    ensures r == Front(t, key)
  {
    hide Less;
    var lo, hi := 0, |t|;
    while lo < hi
      invariant 0 <= lo <= hi <= |t| && FrontIn(t, key, lo, hi) == FrontIn(t, key, 0, |t|)
    {
      var mid := (lo + hi) / 2;
      if Less(t[mid].key, key) {
        lo := mid + 1;
      } else if Less(key, t[mid].key) {
        hi := mid;
      } else {
        var first := LowerEnd(t, key, lo, mid);
        return Some(first);
      }
    }
    return None;
  }

  method LowerEnd<V>(t: seq<Entry<V>>, key: string, from: nat, to: nat) returns (r: nat)
    requires from <= to <= |t|
    ensures r == LowerBound(t, key, from, to)
  {
    hide Less;
    var lo, hi := from, to;
    while lo < hi
      invariant from <= lo <= hi <= to && LowerBound(t, key, lo, hi) == LowerBound(t, key, from, to)
    {
      var mid := (lo + hi) / 2;
      if Less(t[mid].key, key) {
        lo := mid + 1;
      } else {
        hi := mid;
      }
    }
    return lo;
  }

  /** The search finds an entry with the key, if there is one. */
  ghost predicate Right<V>(t: seq<Entry<V>>, key: string) {
    match Front(t, key)
    case None => !HasKey(t, key)
    case Some(i) => i < |t| && t[i].key == key
  }

  // ---------------------------------------------------------------------------------------
  // When the search is right
  // ---------------------------------------------------------------------------------------

  lemma SortedPair<V>(t: seq<Entry<V>>, i: nat, j: nat)
    requires KeySorted(t) && i < j < |t|
    ensures !Less(t[j].key, t[i].key)
  {
  }

  lemma {:induction false} LowerBoundSplits<V>(t: seq<Entry<V>>, key: string, lo: nat, hi: nat)
    requires KeySorted(t) && lo <= hi <= |t|
    ensures var r := LowerBound(t, key, lo, hi);
            (forall i :: lo <= i < r ==> Less(t[i].key, key)) && (forall i :: r <= i < hi ==> !Less(t[i].key, key))
    decreases hi - lo
  {
    hide Less, KeySorted;
    if lo < hi {
      var mid := (lo + hi) / 2;
      if Less(t[mid].key, key) {
        LowerBoundSplits(t, key, mid + 1, hi);
        forall i | lo <= i <= mid
          ensures Less(t[i].key, key)
        {
          if i < mid {
            SortedPair(t, i, mid);
            BelowIsLess(t[i].key, t[mid].key, key);
          }
        }
      } else {
        LowerBoundSplits(t, key, lo, mid);
        forall i | mid <= i < hi
          ensures !Less(t[i].key, key)
        {
          if mid < i {
            SortedPair(t, mid, i);
            NotLessTransitive(t[i].key, t[mid].key, key);
          }
        }
      }
    }
  }

  lemma BelowIsLess(a: string, m: string, key: string)
    requires !Less(m, a) && Less(m, key)
    ensures Less(a, key)
  {
    LessTotal(a, m);
    if Less(a, m) { LessTransitive(a, m, key); }
  }

  /** On a table sorted by key the search of a range finds the key exactly when it is there. */
  lemma {:induction false} SortedFront<V>(t: seq<Entry<V>>, key: string, lo: nat, hi: nat)
    requires KeySorted(t) && lo <= hi <= |t|
    ensures match FrontIn(t, key, lo, hi)
            case None => forall i :: lo <= i < hi ==> t[i].key != key
            case Some(i) => t[i].key == key && forall j :: lo <= j < i ==> t[j].key != key
    decreases hi - lo
  {
    hide Less, KeySorted, LowerBound;
    if lo < hi {
      var mid := (lo + hi) / 2;
      LessIrreflexive(key);
      LessTotal(t[mid].key, key);
      if Less(t[mid].key, key) {
        SortedFront(t, key, mid + 1, hi);
        forall i | lo <= i < mid
          ensures t[i].key != key
        {
          SortedPair(t, i, mid);
        }
      } else if Less(key, t[mid].key) {
        SortedFront(t, key, lo, mid);
        forall i | mid < i < hi
          ensures t[i].key != key
        {
          SortedPair(t, mid, i);
        }
      } else {
        LowerEndIsEqual(t, key, lo, mid);
      }
    }
  }

  lemma LowerEndIsEqual<V>(t: seq<Entry<V>>, key: string, lo: nat, mid: nat)
    requires KeySorted(t) && lo <= mid < |t| && t[mid].key == key
    ensures var l := LowerBound(t, key, lo, mid);
            t[l].key == key && forall j :: lo <= j < l ==> t[j].key != key
  {
    hide Less, KeySorted, LowerBound;
    var l := LowerBound(t, key, lo, mid);
    LowerBoundSplits(t, key, lo, mid);
    LessIrreflexive(key);
    if l < mid {
      SortedPair(t, l, mid);
      LessTotal(t[l].key, key);
    }
  }

  /** On a table sorted by key the search is right for every key, and it finds the first entry. */
  lemma SortedSearchIsRight<V>(t: seq<Entry<V>>, key: string)
    requires KeySorted(t)
    ensures Right(t, key)
    ensures Front(t, key).Some? ==> forall j :: 0 <= j < Front(t, key).value ==> t[j].key != key
  {
    hide Less, KeySorted, FrontIn;
    SortedFront(t, key, 0, |t|);
  }

  /** The search finds an entry with the key of entry `i`, within the given range. */
  ghost predicate FindsKey<V>(t: seq<Entry<V>>, i: nat, lo: nat, hi: nat)
    requires i < |t| && lo <= hi <= |t|
  {
    var r := FrontIn(t, t[i].key, lo, hi);
    r.Some? && t[r.value].key == t[i].key
  }

  ghost predicate Together<V>(t: seq<Entry<V>>) {
    forall i, m, j :: 0 <= i < m < j < |t| && t[i].key == t[j].key ==> t[m].key == t[i].key
  }

  /** Entry `i` has the key of entry `m`, if there is such an entry. */
  ghost predicate Repeats<V>(t: seq<Entry<V>>, m: int, i: nat)
    requires i < |t|
  {
    0 <= m < |t| && t[i].key == t[m].key
  }

  /** Left of the middle, an entry is not greater than the middle, and is found there or repeats
      its key. */
  lemma FindsKeyLeft<V>(t: seq<Entry<V>>, i: nat, lo: nat, hi: nat)
    requires Together(t) && lo <= i < (lo + hi) / 2 && hi <= |t| && FindsKey(t, i, lo, hi)
    ensures var mid := (lo + hi) / 2;
            !Less(t[mid].key, t[i].key) && (Repeats(t, mid, i) || FindsKey(t, i, lo, mid))
  {
    hide Less;
    var mid := (lo + hi) / 2;
    var key, middle := t[i].key, t[mid].key;
    LessIrreflexive(key);
    LessTotal(middle, key);
    var l := FrontIn(t, key, lo, hi).value;
    assert l > mid ==> middle == key;
  }

  lemma FindsKeyRight<V>(t: seq<Entry<V>>, i: nat, lo: nat, hi: nat)
    requires Together(t) && lo < hi && (lo + hi) / 2 < i < hi <= |t| && FindsKey(t, i, lo, hi)
    ensures var mid := (lo + hi) / 2;
            !Less(t[i].key, t[mid].key) && (Repeats(t, mid, i) || FindsKey(t, i, mid + 1, hi))
  {
    hide Less;
    var mid := (lo + hi) / 2;
    var key, middle := t[i].key, t[mid].key;
    LessIrreflexive(key);
    LessTotal(middle, key);
    var l := FrontIn(t, key, lo, hi).value;
    assert l < mid ==> middle == key;
  }

  /** The keys of a range are found in it, apart from those that repeat the key of an entry `m`
      before it or `c` behind it, which bound the range. */
  ghost predicate AllFound<V>(t: seq<Entry<V>>, m: int, c: int, lo: nat, hi: nat)
    requires lo <= hi <= |t|
  {
    && (forall i :: lo <= i < hi ==> Repeats(t, m, i) || Repeats(t, c, i) || FindsKey(t, i, lo, hi))
    && (0 <= m < |t| ==> forall i :: lo <= i < hi ==> !Less(t[i].key, t[m].key))
    && (0 <= c < |t| ==> forall i :: lo <= i < hi ==> !Less(t[c].key, t[i].key))
  }

  /** Then the range is sorted. */
  lemma {:induction false} FoundKeysAreSorted<V>(t: seq<Entry<V>>, m: int, c: int, lo: nat, hi: nat)
    requires Together(t) && -1 <= m < lo <= hi <= c && hi <= |t| && AllFound(t, m, c, lo, hi)
    ensures forall i, j :: lo <= i < j < hi ==> !Less(t[j].key, t[i].key)
    decreases hi - lo
  {
    hide Less, FindsKey, Together, Repeats;
    if lo < hi {
      var mid := (lo + hi) / 2;
      forall i | mid < i < hi
        ensures !Less(t[i].key, t[mid].key)
        ensures Repeats(t, mid, i) || Repeats(t, c, i) || FindsKey(t, i, mid + 1, hi)
      {
        RightStep(t, m, c, i, lo, hi);
      }
      FoundKeysAreSorted(t, mid, c, mid + 1, hi);
      forall i | lo <= i < mid
        ensures !Less(t[mid].key, t[i].key)
        ensures Repeats(t, m, i) || Repeats(t, mid, i) || FindsKey(t, i, lo, mid)
      {
        LeftStep(t, m, c, i, lo, hi);
      }
      FoundKeysAreSorted(t, m, mid, lo, mid);
      forall i, j | lo <= i < j < hi
        ensures !Less(t[j].key, t[i].key)
      {
        if i < mid < j { NotLessTransitive(t[j].key, t[mid].key, t[i].key); }
      }
    }
  }

  lemma RightStep<V>(t: seq<Entry<V>>, m: int, c: int, i: nat, lo: nat, hi: nat)
    requires Together(t) && -1 <= m < lo <= (lo + hi) / 2 < i < hi <= c && hi <= |t|
    requires AllFound(t, m, c, lo, hi)
    ensures var mid := (lo + hi) / 2;
            && !Less(t[i].key, t[mid].key)
            && (Repeats(t, mid, i) || Repeats(t, c, i) || FindsKey(t, i, mid + 1, hi))
  {
    hide Less, FindsKey;
    var mid := (lo + hi) / 2;
    if Repeats(t, m, i) {
      assert t[mid].key == t[m].key;
      LessIrreflexive(t[i].key);
    } else if !Repeats(t, c, i) {
      FindsKeyRight(t, i, lo, hi);
    }
  }

  lemma LeftStep<V>(t: seq<Entry<V>>, m: int, c: int, i: nat, lo: nat, hi: nat)
    requires Together(t) && -1 <= m < lo <= i < (lo + hi) / 2 < hi <= c && hi <= |t|
    requires AllFound(t, m, c, lo, hi)
    ensures var mid := (lo + hi) / 2;
            && !Less(t[mid].key, t[i].key)
            && (Repeats(t, m, i) || Repeats(t, mid, i) || FindsKey(t, i, lo, mid))
  {
    hide Less, FindsKey;
    var mid := (lo + hi) / 2;
    if Repeats(t, c, i) {
      assert t[mid].key == t[i].key;
      LessIrreflexive(t[i].key);
    } else if !Repeats(t, m, i) {
      FindsKeyLeft(t, i, lo, hi);
    }
  }

  /** The emitted search is right for every key if and only if the table holds no misprinted pair
      of keys. */
  lemma SearchIsRightExactly<V>(shown: Shown, t: seq<Entry<V>>)
    requires PrintSorted(shown, t)
    ensures (forall key :: Right(t, key)) <==> NoMisprints(shown, t)
  {
    hide Less, Misprinted, Text, KeySorted, PrintSorted, NoMisprints, Right;
    TextSortIsKeySort(shown, t);
    if KeySorted(t) {
      forall key ensures Right(t, key) { SortedSearchIsRight(t, key); }
    }
    if forall key :: Right(t, key) {
      RightMeansSorted(shown, t);
    }
  }

  lemma RightMeansSorted<V>(shown: Shown, t: seq<Entry<V>>)
    requires PrintSorted(shown, t) && forall key :: Right(t, key)
    ensures KeySorted(t)
  {
    hide Less, Misprinted, Text, FrontIn, PrintSorted;
    forall i, m, j | 0 <= i < m < j < |t| && t[i].key == t[j].key
      ensures t[m].key == t[i].key
    {
      SameKeysTogether(shown, t, i, m, j);
    }
    forall i | 0 <= i < |t|
      ensures FindsKey(t, i, 0, |t|)
    {
      assert Right(t, t[i].key) && HasKey(t, t[i].key);
    }
    FoundKeysAreSorted(t, -1, |t|, 0, |t|);
  }
}
