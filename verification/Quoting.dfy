/**
  * Table entries as the plugin prints them: the key quoted as Go's `%q` quotes it, and then the
  * rest of the entry.  The plugin sorts this text; the emitted search compares the keys.
  */
module Quoting {
  import opened Wrappers

  // ---------------------------------------------------------------------------------------
  // The order of strings
  // ---------------------------------------------------------------------------------------

  /** Lexicographic order; for UTF-8 text, comparing characters and comparing bytes is the same. */
  predicate Less(a: string, b: string) {
    if b == [] then false
    else if a == [] then true
    else if a[0] == b[0] then Less(a[1..], b[1..])
    else a[0] < b[0]
  }

  lemma {:induction false} LessIrreflexive(a: string)
    ensures !Less(a, a)
  {
    if a != [] { LessIrreflexive(a[1..]); }
  }

  lemma {:induction false} LessTotal(a: string, b: string)
    ensures Less(a, b) || a == b || Less(b, a)
    ensures !(Less(a, b) && Less(b, a))
  {
    if a != [] && b != [] && a[0] == b[0] {
      LessTotal(a[1..], b[1..]);
      if a[1..] == b[1..] { assert a == [a[0]] + a[1..] && b == [b[0]] + b[1..]; }
    }
  }

  lemma {:induction false} LessTransitive(a: string, b: string, c: string)
    requires Less(a, b) && Less(b, c)
    ensures Less(a, c)
  {
    if a != [] && a[0] == b[0] == c[0] { LessTransitive(a[1..], b[1..], c[1..]); }
  }

  /** The strings differ at a place where both still have a character. */
  predicate Diverge(a: string, b: string) {
    a != [] && b != [] && (a[0] != b[0] || Diverge(a[1..], b[1..]))
  }

  /** What follows does not matter to the order of diverging strings. */
  lemma {:induction false} DivergingOrder(a: string, x: string, b: string, y: string)
    requires Diverge(a, b)
    ensures Less(a + x, b + y) <==> Less(a, b)
  {
    if a[0] == b[0] {
      DivergingOrder(a[1..], x, b[1..], y);
      assert (a + x)[1..] == a[1..] + x && (b + y)[1..] == b[1..] + y;
    }
  }

  lemma {:induction false} SamePrefixOrder(p: string, x: string, y: string)
    ensures Less(p + x, p + y) <==> Less(x, y)
  {
    if p == [] {
      assert p + x == x && p + y == y;
    } else {
      SamePrefixOrder(p[1..], x, y);
      assert (p + x)[1..] == p[1..] + x && (p + y)[1..] == p[1..] + y;
    }
  }

  lemma {:induction false} DivergeAppend(a: string, x: string, b: string, y: string)
    requires Diverge(a, b)
    ensures Diverge(a + x, b + y)
  {
    if a[0] == b[0] {
      DivergeAppend(a[1..], x, b[1..], y);
      assert (a + x)[1..] == a[1..] + x && (b + y)[1..] == b[1..] + y;
    }
  }

  lemma {:induction false} DivergePrefix(p: string, x: string, y: string)
    requires Diverge(x, y)
    ensures Diverge(p + x, p + y)
  {
    if p == [] {
      assert p + x == x && p + y == y;
    } else {
      DivergePrefix(p[1..], x, y);
      assert (p + x)[1..] == p[1..] + x && (p + y)[1..] == p[1..] + y;
    }
  }

  // ---------------------------------------------------------------------------------------
  // Quoting
  // ---------------------------------------------------------------------------------------

  /** Which characters beyond ASCII Go takes to be printable. */
  type Shown = char -> bool

  /** Printed as it stands. */
  predicate Bare(shown: Shown, c: char) {
    c != '\"' && c != '\\' && (if c as int < 128 then ' ' <= c <= '~' else shown(c))
  }

  /** The letter that stands for the character behind a backslash, if there is one. */
  function Letter(c: char): Option<char> {
    match c as int
    case 7 => Some('a')
    case 8 => Some('b')
    case 9 => Some('t')
    case 10 => Some('n')
    case 11 => Some('v')
    case 12 => Some('f')
    case 13 => Some('r')
    case 34 => Some('\"')
    case 92 => Some('\\')
    case _ => None
  }

  function HexDigit(d: nat): char
    requires d < 16
  {
    "0123456789abcdef"[d]
  }

  function Hex(n: nat, width: nat): (r: string)
    ensures |r| == width
  {
    if width == 0 then [] else Hex(n / 16, width - 1) + [HexDigit(n % 16)]
  }

  function Escape(shown: Shown, c: char): (r: string)
    ensures |r| > 0
  {
    var n := c as int;
    if Bare(shown, c) then [c]
    else if Letter(c).Some? then ['\\', Letter(c).value]
    else if n < 128 then "\\x" + Hex(n, 2)
    else if n < 0x10000 then "\\u" + Hex(n, 4)
    else "\\U" + Hex(n, 8)
  }

  /** The key up to and including its closing quote, and the rest of the entry. */
  function Closed(shown: Shown, key: string, body: string): string {
    if key == [] then "\"" + body else Escape(shown, key[0]) + Closed(shown, key[1..], body)
  }

  /** A table entry as it is printed. */
  function Format(shown: Shown, key: string, body: string): string {
    "{\"" + Closed(shown, key, body)
  }

  function Pow16(n: nat): nat {
    if n == 0 then 1 else 16 * Pow16(n - 1)
  }

  lemma DigitsDiffer(d: nat, e: nat)
    requires d < 16 && e < 16 && d != e
    ensures Diverge([HexDigit(d)], [HexDigit(e)])
  {
  }

  lemma {:induction false} HexDiverges(m: nat, n: nat, width: nat)
    requires m != n && m < Pow16(width) && n < Pow16(width)
    ensures Diverge(Hex(m, width), Hex(n, width))
  {
    hide HexDigit, Diverge;
    var a, b := Hex(m / 16, width - 1), Hex(n / 16, width - 1);
    var x, y := [HexDigit(m % 16)], [HexDigit(n % 16)];
    if m / 16 != n / 16 {
      HexDiverges(m / 16, n / 16, width - 1);
      DivergeAppend(a, x, b, y);
    } else {
      DigitsDiffer(m % 16, n % 16);
      DivergePrefix(a, x, y);
    }
  }

  lemma HexBounds()
    ensures Pow16(2) == 0x100 && Pow16(4) == 0x10000 && Pow16(8) == 0x1_0000_0000
  {
    assert Pow16(0) == 1 && Pow16(1) == 16 && Pow16(3) == 0x1000 && Pow16(5) == 0x10_0000;
    assert Pow16(6) == 0x100_0000 && Pow16(7) == 0x1000_0000;
  }

  /** Different characters are told apart within their printed forms. */
  lemma EscapesDiverge(shown: Shown, c: char, d: char)
    requires c != d
    ensures Diverge(Escape(shown, c), Escape(shown, d))
  {
    hide Hex;
    HexBounds();
    var e, f := Escape(shown, c), Escape(shown, d);
    var m, n := c as int, d as int;
    if !Bare(shown, c) && !Bare(shown, d) {
      assert e[0] == f[0] == '\\';
      assert e[1..][0] == e[1] && f[1..][0] == f[1];
      if Letter(c).None? && Letter(d).None? && e[1] == f[1] {
        var w := if m < 128 then 2 else if m < 0x10000 then 4 else 8;
        HexDiverges(m, n, w);
        assert e == ['\\', e[1]] + Hex(m, w) && f == ['\\', e[1]] + Hex(n, w);
        DivergePrefix(['\\', e[1]], Hex(m, w), Hex(n, w));
      } else {
        assert e[1] != f[1];
      }
    }
  }

  // ---------------------------------------------------------------------------------------
  // Reading a quoted key back
  // ---------------------------------------------------------------------------------------

  function FromHexDigit(c: char): Option<nat> {
    if '0' <= c <= '9' then Some(c as int - '0' as int)
    else if 'a' <= c <= 'f' then Some(c as int - 'a' as int + 10)
    else None
  }

  function FromHex(s: string): Option<nat> {
    if s == [] then Some(0)
    else
      match (FromHex(s[..|s| - 1]), FromHexDigit(s[|s| - 1]))
      case (Some(n), Some(d)) => Some(16 * n + d)
      case _ => None
  }

  function FromLetter(c: char): Option<char> {
    if c == 'a' then Some(7 as char)
    else if c == 'b' then Some(8 as char)
    else if c == 't' then Some('\t')
    else if c == 'n' then Some('\n')
    else if c == 'v' then Some(11 as char)
    else if c == 'f' then Some(12 as char)
    else if c == 'r' then Some('\r')
    else if c == '\"' || c == '\\' then Some(c)
    else None
  }

  /** How many hexadecimal digits follow. */
  function HexWidth(c: char): nat {
    if c == 'x' then 2 else if c == 'u' then 4 else if c == 'U' then 8 else 0
  }

  /** One character of a literal and how much of the text it takes; nothing at the closing quote. */
  function Unescape(s: string): (r: Option<(char, nat)>)
    ensures r.Some? ==> 0 < r.value.1 <= |s|
  {
    if s == [] || s[0] == '\"' then None
    else if s[0] != '\\' then Some((s[0], 1))
    else if |s| == 1 then None
    else if FromLetter(s[1]).Some? then Some((FromLetter(s[1]).value, 2))
    else
      var end := 2 + HexWidth(s[1]);
      if end == 2 || end > |s| then None
      else
        match FromHex(s[2..end])
        case None => None
        case Some(n) => if n < 0xD800 || 0xE000 <= n < 0x11_0000 then Some((n as char, end)) else None
  }

  /** A literal up to its closing quote, and what follows. */
  function Unquote(s: string): Option<(string, string)>
    decreases |s|
  {
    if s == [] then None
    else if s[0] == '\"' then Some(("", s[1..]))
    else
      match Unescape(s)
      case None => None
      case Some((c, k)) =>
        match Unquote(s[k..])
        case None => None
        case Some((key, rest)) => Some(([c] + key, rest))
  }

  lemma {:induction false} HexIsReadBack(n: nat, width: nat)
    requires n < Pow16(width)
    ensures FromHex(Hex(n, width)) == Some(n)
  {
    if width > 0 {
      HexIsReadBack(n / 16, width - 1);
      var s := Hex(n, width);
      assert s[..|s| - 1] == Hex(n / 16, width - 1);
      assert FromHexDigit(HexDigit(n % 16)) == Some(n % 16);
    }
  }

  lemma EscapeIsReadBack(shown: Shown, c: char, rest: string)
    ensures Unescape(Escape(shown, c) + rest) == Some((c, |Escape(shown, c)|))
  {
    hide Hex, FromHex;
    HexBounds();
    var e, n := Escape(shown, c), c as int;
    var s := e + rest;
    assert s[0] == e[0];
    if !Bare(shown, c) {
      assert s[1] == e[1];
      if Letter(c).None? {
        var w := if n < 128 then 2 else if n < 0x10000 then 4 else 8;
        HexIsReadBack(n, w);
        assert s[2..2 + w] == Hex(n, w);
        assert n as char == c;
      }
    }
  }

  /** A printed key, whatever characters it contains, is read back from its entry. */
  lemma {:induction false} KeyIsReadBack(shown: Shown, key: string, body: string)
    ensures Unquote(Closed(shown, key, body)) == Some((key, body))
  {
    hide Escape, Unescape;
    var s := Closed(shown, key, body);
    if key == [] {
      assert s[0] == '\"' && s[1..] == body;
    } else {
      var e, rest := Escape(shown, key[0]), Closed(shown, key[1..], body);
      EscapeIsReadBack(shown, key[0], rest);
      EscapeStart(shown, key[0]);
      KeyIsReadBack(shown, key[1..], body);
      assert s[0] == e[0] && s[|e|..] == rest;
      assert key == [key[0]] + key[1..];
    }
  }

  lemma EscapeStart(shown: Shown, c: char)
    ensures Escape(shown, c)[0] != '\"'
  {
    hide Hex;
  }

  // ---------------------------------------------------------------------------------------
  // Where the printed order is not the order of the keys
  // ---------------------------------------------------------------------------------------

  /** Two characters whose printed forms come in the other order. */
  predicate Swapped(shown: Shown, c: char, d: char) {
    c < d && Less(Escape(shown, d), Escape(shown, c))
  }

  /** `a` is the smaller key, but at the first difference it ends where `b` goes on with a
      character below the closing quote, or has a character that is swapped with that of `b`. */
  predicate Misprinted(shown: Shown, a: string, b: string) {
    if b == [] then false
    else if a == [] then b[0] == ' ' || b[0] == '!'
    else if a[0] == b[0] then Misprinted(shown, a[1..], b[1..])
    else Swapped(shown, a[0], b[0])
  }

  /** If one of two characters is printed bare, they are swapped exactly when it is on the wrong
      side of the backslash. */
  lemma SwappedBare(shown: Shown, c: char, d: char)
    requires c < d && (Bare(shown, c) || Bare(shown, d))
    ensures Swapped(shown, c, d) <==>
            (!Bare(shown, c) && d < '\\') || (!Bare(shown, d) && '\\' < c)
  {
    hide Hex;
    var e, f := Escape(shown, c), Escape(shown, d);
    assert e[0] == (if Bare(shown, c) then c else '\\') && f[0] == (if Bare(shown, d) then d else '\\');
  }

  /** How an end of key is printed next to a character that goes on. */
  lemma QuoteOrder(shown: Shown, x: string, c: char, y: string)
    ensures Less("\"" + x, Escape(shown, c) + y) <==> c != ' ' && c != '!'
    ensures Less(Escape(shown, c) + y, "\"" + x) <==> c == ' ' || c == '!'
  {
    hide Hex;
    var e := Escape(shown, c);
    assert e[0] == if Bare(shown, c) then c else '\\';
    assert ("\"" + x)[0] == '\"' && (e + y)[0] == e[0];
  }

  lemma {:induction false} ClosedOrder(shown: Shown, k1: string, b1: string, k2: string, b2: string)
    requires k1 != k2
    ensures (Less(Closed(shown, k1, b1), Closed(shown, k2, b2)) <==> Less(k1, k2)) <==>
            !Misprinted(shown, k1, k2) && !Misprinted(shown, k2, k1)
  {
    hide Escape;
    if k1 == [] {
      QuoteOrder(shown, b1, k2[0], Closed(shown, k2[1..], b2));
    } else if k2 == [] {
      QuoteOrder(shown, b2, k1[0], Closed(shown, k1[1..], b1));
    } else if k1[0] == k2[0] {
      assert k1 == [k1[0]] + k1[1..] && k2 == [k2[0]] + k2[1..];
      ClosedOrder(shown, k1[1..], b1, k2[1..], b2);
      SamePrefixOrder(Escape(shown, k1[0]), Closed(shown, k1[1..], b1), Closed(shown, k2[1..], b2));
    } else {
      var e, f := Escape(shown, k1[0]), Escape(shown, k2[0]);
      EscapesDiverge(shown, k1[0], k2[0]);
      DivergingOrder(e, Closed(shown, k1[1..], b1), f, Closed(shown, k2[1..], b2));
      LessTotal(e, f);
      DivergentDiffer(e, f);
    }
  }

  lemma {:induction false} DivergentDiffer(a: string, b: string)
    requires Diverge(a, b)
    ensures a != b
  {
    if a[0] == b[0] { DivergentDiffer(a[1..], b[1..]); }
  }

  /** Two entries with different keys, whatever characters these contain, print in the order of
      their keys if and only if the keys are not misprinted. */
  lemma PrintedOrderIsKeyOrder(shown: Shown, k1: string, b1: string, k2: string, b2: string)
    requires k1 != k2
    ensures (Less(Format(shown, k1, b1), Format(shown, k2, b2)) <==> Less(k1, k2)) <==>
            !Misprinted(shown, k1, k2) && !Misprinted(shown, k2, k1)
  {
    hide Closed, Misprinted;
    ClosedOrder(shown, k1, b1, k2, b2);
    SamePrefixOrder("{\"", Closed(shown, k1, b1), Closed(shown, k2, b2));
  }

  lemma {:induction false} MisprintedMeansLess(shown: Shown, a: string, b: string)
    requires Misprinted(shown, a, b)
    ensures Less(a, b) && !Less(b, a) && a != b
  {
    if a != [] && a[0] == b[0] { MisprintedMeansLess(shown, a[1..], b[1..]); }
  }

  /** A misprinted pair prints backwards. */
  lemma MisprintedIsBackwards(shown: Shown, a: string, x: string, b: string, y: string)
    requires Misprinted(shown, a, b)
    ensures Less(Format(shown, b, y), Format(shown, a, x))
  {
    hide Misprinted, Format;
    MisprintedMeansLess(shown, a, b);
    PrintedOrderIsKeyOrder(shown, b, y, a, x);
  }

  /** A JSON name may contain an exclamation mark, a quote or a tab.  The first two break the
      order, and a tab does not. */
  lemma PrintedExamples(shown: Shown)
    ensures Less("a", "a!") && Less(Format(shown, "a!", ""), Format(shown, "a", ""))
    ensures Less("a\"", "aA") && Less(Format(shown, "aA", ""), Format(shown, "a\"", ""))
    ensures Less("a", "a\t") && Less(Format(shown, "a", ""), Format(shown, "a\t", ""))
  {
    hide Format, Escape;
    assert "a!"[1..] == "!" && "a"[1..] == "" && "a\""[1..] == "\"" && "aA"[1..] == "A" && "a\t"[1..] == "\t";
    assert Misprinted(shown, "a", "a!");
    MisprintedIsBackwards(shown, "a", "", "a!", "");
    SwappedBare(shown, '\"', 'A');
    assert Misprinted(shown, "\"", "A");
    assert Misprinted(shown, "a\"", "aA");
    MisprintedIsBackwards(shown, "a\"", "", "aA", "");
    MisprintedMeansLess(shown, "a\"", "aA");
    assert !Misprinted(shown, "", "\t") && !Misprinted(shown, "\t", "");
    assert !Misprinted(shown, "a", "a\t") && !Misprinted(shown, "a\t", "a");
    assert Less("", "\t") && Less("a", "a\t");
    PrintedOrderIsKeyOrder(shown, "a", "", "a\t", "");
  }

  /** Identifiers: letters, digits and underscores. */
  predicate IsIdentifier(key: string) {
    forall i :: 0 <= i < |key| ==>
      'a' <= key[i] <= 'z' || 'A' <= key[i] <= 'Z' || '0' <= key[i] <= '9' || key[i] == '_'
  }

  lemma {:induction false} IdentifiersPrintInOrder(shown: Shown, a: string, b: string)
    requires IsIdentifier(a) && IsIdentifier(b)
    ensures !Misprinted(shown, a, b)
  {
    if b != [] && a != [] {
      IdentifiersPrintInOrder(shown, a[1..], b[1..]);
      if a[0] < b[0] { SwappedBare(shown, a[0], b[0]); }
    }
  }
}
