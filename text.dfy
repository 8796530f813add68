/** The string operations the scripts use, with Python's meaning:
    str.isspace, str.strip, str.upper/lower (ASCII letters only), str.split on one
    character, str.join, str.replace, substring tests, int() and str() on integers,
    and the code-point order that sorted() puts strings in. */
module Text {
  import opened Wrappers
  import opened Collections

  // ---------------------------------------------------------------------------
  // Characters
  // ---------------------------------------------------------------------------

  /** The characters Python's str.isspace accepts (and regular-expression \s matches). */
  predicate IsSpace(c: char) {
    c == ' ' || ('\t' <= c <= '\r') || ('\U{1C}' <= c <= '\U{1F}')
    || c == '\U{85}' || c == '\U{A0}' || c == '\U{1680}'
    || ('\U{2000}' <= c <= '\U{200A}') || c == '\U{2028}' || c == '\U{2029}'
    || c == '\U{202F}' || c == '\U{205F}' || c == '\U{3000}'
  }

  predicate IsDigit(c: char) { '0' <= c <= '9' }
  predicate IsUpper(c: char) { 'A' <= c <= 'Z' }
  predicate IsLower(c: char) { 'a' <= c <= 'z' }
  predicate IsLetter(c: char) { IsUpper(c) || IsLower(c) }

  function UpperChar(c: char): (r: char)
    ensures IsLetter(c) ==> IsUpper(r)
    ensures !IsLower(c) ==> r == c
  {
    if IsLower(c) then (c as int - 32) as char else c
  }

  function LowerChar(c: char): (r: char)
    ensures IsLetter(c) ==> IsLower(r)
    ensures !IsUpper(c) ==> r == c
  {
    if IsUpper(c) then (c as int + 32) as char else c
  }

  predicate AllDigits(s: string) { forall i :: 0 <= i < |s| ==> IsDigit(s[i]) }
  predicate AllLetters(s: string) { forall i :: 0 <= i < |s| ==> IsLetter(s[i]) }
  predicate AllSpaces(s: string) { forall i :: 0 <= i < |s| ==> IsSpace(s[i]) }

  /** str.upper() and str.lower(), restricted to ASCII letters. */
  function Upper(s: string): (r: string)
    ensures |r| == |s| && forall i :: 0 <= i < |s| ==> r[i] == UpperChar(s[i])
  {
    seq(|s|, i requires 0 <= i < |s| => UpperChar(s[i]))
  }

  function Lower(s: string): (r: string)
    ensures |r| == |s| && forall i :: 0 <= i < |s| ==> r[i] == LowerChar(s[i])
  {
    seq(|s|, i requires 0 <= i < |s| => LowerChar(s[i]))
  }

  // ---------------------------------------------------------------------------
  // Prefixes, suffixes, substrings, counting
  // ---------------------------------------------------------------------------

  predicate StartsWith(s: string, p: string) { |p| <= |s| && s[..|p|] == p }
  predicate EndsWith(s: string, p: string) { |p| <= |s| && s[|s| - |p|..] == p }

  /** `sub in s` */
  predicate Contains(s: string, sub: string)
    decreases |s|
  {
    StartsWith(s, sub) || (s != [] && Contains(s[1..], sub))
  }

  lemma {:induction false} ContainsAt(s: string, sub: string, i: nat)
    requires i + |sub| <= |s| && s[i..i + |sub|] == sub
    ensures Contains(s, sub)
    decreases i
  {
    if i > 0 {
      assert s[1..][i - 1..i - 1 + |sub|] == s[i..i + |sub|];
      ContainsAt(s[1..], sub, i - 1);
    }
  }

  predicate OccursAt(s: string, sub: string, i: nat) { i + |sub| <= |s| && s[i..i + |sub|] == sub }

  /** A string that holds sub starts it at some index. */
  lemma {:induction false} ContainsSomewhere(s: string, sub: string)
    requires Contains(s, sub)
    ensures exists i: nat :: OccursAt(s, sub, i)
    decreases |s|
  {
    if StartsWith(s, sub) {
      assert OccursAt(s, sub, 0);
    } else {
      ContainsSomewhere(s[1..], sub);
      var i: nat :| OccursAt(s[1..], sub, i);
      assert s[i + 1..i + 1 + |sub|] == s[1..][i..i + |sub|];
      assert OccursAt(s, sub, i + 1);
    }
  }

  /** s.count(c) */
  function Count(s: string, c: char): nat
    decreases |s|
  {
    if s == [] then 0 else (if s[0] == c then 1 else 0) + Count(s[1..], c)
  }

  /** s.replace(pat, rep): non-overlapping occurrences, left to right. */
  function ReplaceAll(s: string, pat: string, rep: string): string
    requires pat != []
    decreases |s|
  {
    if |s| < |pat| then s
    else if s[..|pat|] == pat then rep + ReplaceAll(s[|pat|..], pat, rep)
    else [s[0]] + ReplaceAll(s[1..], pat, rep)
  }

  /** Without an occurrence, replace changes nothing. */
  lemma {:induction false} ReplaceAbsent(s: string, pat: string, rep: string)
    requires pat != [] && !Contains(s, pat)
    ensures ReplaceAll(s, pat, rep) == s
    decreases |s|
  {
    if |s| >= |pat| {
      ReplaceAbsent(s[1..], pat, rep);
      HeadTail(s);
    }
  }

  /** The first occurrence is replaced when no occurrence can start before it. */
  lemma {:induction false} ReplaceFirst(a: string, b: string, pat: string, rep: string)
    requires pat != [] && pat[0] !in a
    ensures ReplaceAll(a + pat + b, pat, rep) == a + rep + ReplaceAll(b, pat, rep)
    decreases |a|
  {
    if a == [] {
      ReplaceAtStart(pat, b, rep);
      assert a + pat + b == pat + b;
    } else {
      var s := a + pat + b;
      ReplaceSkip(s, pat, rep);
      assert s[1..] == a[1..] + pat + b;
      ReplaceFirst(a[1..], b, pat, rep);
      ConsAppend(a, rep, ReplaceAll(b, pat, rep));
    }
  }

  lemma ConsAppend(a: string, u: string, v: string)
    requires a != []
    ensures [a[0]] + (a[1..] + u + v) == a + u + v
  {
    assert a == [a[0]] + a[1..];
  }

  lemma ReplaceAtStart(pat: string, b: string, rep: string)
    requires pat != []
    ensures ReplaceAll(pat + b, pat, rep) == rep + ReplaceAll(b, pat, rep)
  {
    var s := pat + b;
    assert s[..|pat|] == pat && s[|pat|..] == b;
  }

  lemma ReplaceSkip(s: string, pat: string, rep: string)
    requires pat != [] && s != [] && s[0] != pat[0]
    ensures ReplaceAll(s, pat, rep) == [s[0]] + ReplaceAll(s[1..], pat, rep)
  {
    if |s| >= |pat| {
      assert s[..|pat|][0] == s[0];
    }
  }

  /** Deleting a character the text does not hold changes nothing. */
  lemma {:induction false} ReplaceCharAbsent(s: string, c: char)
    requires c !in s
    ensures ReplaceAll(s, [c], "") == s
    decreases |s|
  {
    if |s| >= 1 {
      assert s[..1] == [s[0]];
      ReplaceCharAbsent(s[1..], c);
      HeadTail(s);
    }
  }

  /** Deleting every occurrence of a single character leaves none of it. */
  lemma {:induction false} ReplaceCharByNothing(s: string, c: char)
    ensures c !in ReplaceAll(s, [c], "")
    ensures forall d :: d in ReplaceAll(s, [c], "") ==> d in s
    decreases |s|
  {
    if |s| >= 1 {
      ReplaceCharByNothing(s[1..], c);
      assert s[..1] == [s[0]];
    }
  }

  // ---------------------------------------------------------------------------
  // strip()
  // ---------------------------------------------------------------------------

  function StripStart(s: string): (r: string)
    ensures |r| <= |s| && r == s[|s| - |r|..]
    ensures r == [] || !IsSpace(r[0])
    ensures forall i :: 0 <= i < |s| - |r| ==> IsSpace(s[i])
    decreases |s|
  {
    if s != [] && IsSpace(s[0]) then StripStart(s[1..]) else s
  }

  function StripEnd(s: string): (r: string)
    ensures |r| <= |s| && r == s[..|r|]
    ensures r == [] || !IsSpace(r[|r| - 1])
    ensures forall i :: |r| <= i < |s| ==> IsSpace(s[i])
    decreases |s|
  {
    if s != [] && IsSpace(s[|s| - 1]) then StripEnd(s[..|s| - 1]) else s
  }

  predicate IsStripped(s: string) { s == [] || (!IsSpace(s[0]) && !IsSpace(s[|s| - 1])) }

  /** str.strip(): the longest slice with no surrounding whitespace. */
  function Strip(s: string): (r: string)
    ensures IsStripped(r)
    ensures forall c :: c in r ==> c in s
    ensures r == [] <==> AllSpaces(s)
  {
    StripBoth(s);
    StripEnd(StripStart(s))
  }

  lemma StripBoth(s: string)
    ensures var r := StripEnd(StripStart(s));
      IsStripped(r) && (forall c :: c in r ==> c in s) && (r == [] <==> AllSpaces(s))
  {
    var t := StripStart(s);
    var r := StripEnd(t);
    assert forall c :: c in r ==> c in t;
    assert forall c :: c in t ==> c in s;
    if r == [] {
      assert t == [];
    } else {
      assert r[0] == t[0];
      assert !IsSpace(t[0]);
      assert t[0] == s[|s| - |t|];
    }
  }

  lemma StrippedIsFixed(s: string)
    requires IsStripped(s)
    ensures Strip(s) == s
  {
  }

  lemma {:induction false} StripAfterSpaces(pad: string, x: string)
    requires AllSpaces(pad) && IsStripped(x) && x != []
    ensures Strip(pad + x) == x
    decreases |pad|
  {
    if pad == [] {
      assert pad + x == x;
    } else {
      assert (pad + x)[1..] == pad[1..] + x;
      StripAfterSpaces(pad[1..], x);
    }
  }

  // ---------------------------------------------------------------------------
  // split() on one character and join()
  // ---------------------------------------------------------------------------

  /** s.split(sep): never empty, and no piece holds the separator. */
  function Split(s: string, sep: char): (r: seq<string>)
    ensures |r| >= 1
    ensures forall i :: 0 <= i < |r| ==> sep !in r[i]
    decreases |s|
  {
    if s == [] then [""]
    else
      var rest := Split(s[1..], sep);
      if s[0] == sep then [""] + rest
      else [[s[0]] + rest[0]] + rest[1..]
  }

  lemma {:induction false} SplitWithout(a: string, sep: char)
    requires sep !in a
    ensures Split(a, sep) == [a]
    decreases |a|
  {
    if a != [] {
      SplitWithout(a[1..], sep);
      HeadTail(a);
    }
  }

  lemma {:induction false} SplitAtFirst(a: string, sep: char, b: string)
    requires sep !in a
    ensures Split(a + [sep] + b, sep) == [a] + Split(b, sep)
    decreases |a|
  {
    var s := a + [sep] + b;
    if a == [] {
      assert s[1..] == b;
    } else {
      assert s[1..] == a[1..] + [sep] + b;
      SplitAtFirst(a[1..], sep, b);
      HeadTail(a);
    }
  }

  /** sep.join(parts) */
  function Join(sep: string, parts: seq<string>): string
    decreases |parts|
  {
    if parts == [] then ""
    else if |parts| == 1 then parts[0]
    else parts[0] + sep + Join(sep, parts[1..])
  }

  /** Splitting a join on its one-character separator gives the parts back,
      when no part contains the separator. */
  lemma {:induction false} SplitJoin(parts: seq<string>, sep: char)
    requires |parts| >= 1 && forall i :: 0 <= i < |parts| ==> sep !in parts[i]
    ensures Split(Join([sep], parts), sep) == parts
    decreases |parts|
  {
    if |parts| == 1 {
      SplitWithout(parts[0], sep);
      Singleton(parts);
    } else {
      var rest := parts[1..];
      assert forall i :: 0 <= i < |rest| ==> rest[i] == parts[i + 1];
      SplitJoin(rest, sep);
      SplitAtFirst(parts[0], sep, Join([sep], rest));
      HeadTail(parts);
    }
  }

  lemma JoinPair(sep: string, a: string, b: string)
    ensures Join(sep, [a, b]) == a + sep + b
  {
    Pair(a, b);
  }

  /** Joining non-empty parts starts with the first part's first character and
      ends with the last part's last character. */
  lemma {:induction false} JoinEnds(sep: string, parts: seq<string>)
    requires |parts| >= 1 && forall i :: 0 <= i < |parts| ==> parts[i] != []
    ensures var j := Join(sep, parts);
      j != [] && j[0] == parts[0][0] && j[|j| - 1] == parts[|parts| - 1][|parts[|parts| - 1]| - 1]
    decreases |parts|
  {
    if |parts| > 1 {
      JoinEnds(sep, parts[1..]);
    }
  }

  // ---------------------------------------------------------------------------
  // The semicolon-separated image list of a plot
  // ---------------------------------------------------------------------------

  /** A filename as it is stored in a `monument_images` cell after parsing. */
  predicate IsCleanName(x: string) { x != [] && IsStripped(x) && ';' !in x }

  predicate CleanNames(names: seq<string>) {
    forall i :: 0 <= i < |names| ==> IsCleanName(names[i])
  }

  /** [p.strip() for p in pieces if p.strip()] */
  function CleanPieces(pieces: seq<string>): (r: seq<string>)
    ensures |r| <= |pieces|
    ensures forall i :: 0 <= i < |r| ==> r[i] != [] && IsStripped(r[i])
    decreases |pieces|
  {
    if pieces == [] then []
    else
      var t := Strip(pieces[0]);
      (if t == [] then [] else [t]) + CleanPieces(pieces[1..])
  }

  lemma {:induction false} CleanPiecesWithout(pieces: seq<string>, c: char)
    requires forall i :: 0 <= i < |pieces| ==> c !in pieces[i]
    ensures forall i :: 0 <= i < |CleanPieces(pieces)| ==> c !in CleanPieces(pieces)[i]
    decreases |pieces|
  {
    if pieces != [] {
      CleanPiecesWithout(pieces[1..], c);
    }
  }

  /** parse_images: the stripped, non-empty pieces of a `;`-separated cell. */
  function ParseImages(cell: string): seq<string>
  {
    if Strip(cell) == [] then [] else CleanPieces(Split(cell, ';'))
  }

  /** Every name parse_images returns is a clean name. */
  lemma ParseImagesClean(cell: string)
    ensures forall i :: 0 <= i < |ParseImages(cell)| ==> IsCleanName(ParseImages(cell)[i])
  {
    if Strip(cell) != [] {
      CleanPiecesWithout(Split(cell, ';'), ';');
    }
  }

  lemma CleanPiecesCons(p: string, rest: seq<string>)
    requires Strip(p) != []
    ensures CleanPieces([p] + rest) == [Strip(p)] + CleanPieces(rest)
  {
    assert ([p] + rest)[1..] == rest;
  }

  lemma JoinCons(pad: string, names: seq<string>)
    requires |names| >= 2
    ensures pad + Join("; ", names) == (pad + names[0]) + [';'] + (" " + Join("; ", names[1..]))
  {
  }

  lemma {:induction false} CleanPiecesOfJoin(pad: string, names: seq<string>)
    requires AllSpaces(pad) && ';' !in pad
    requires |names| >= 1 && forall i :: 0 <= i < |names| ==> IsCleanName(names[i])
    ensures CleanPieces(Split(pad + Join("; ", names), ';')) == names
    decreases |names|
  {
    assert IsCleanName(names[0]);
    StripAfterSpaces(pad, names[0]);
    if |names| == 1 {
      CleanPiecesOfOne(pad, names);
    } else {
      CleanPiecesOfJoin(" ", names[1..]);
      CleanPiecesStep(pad, names);
    }
  }

  lemma CleanPiecesOfOne(pad: string, names: seq<string>)
    requires |names| == 1 && ';' !in pad + names[0] && Strip(pad + names[0]) == names[0]
    requires names[0] != []
    ensures CleanPieces(Split(pad + Join("; ", names), ';')) == names
  {
    var first := pad + names[0];
    assert Join("; ", names) == names[0];
    assert pad + Join("; ", names) == first;
    SplitWithout(first, ';');
    CleanPiecesCons(first, []);
    Singleton([first]);
    Singleton(names);
  }


  lemma CleanPiecesStep(pad: string, names: seq<string>)
    requires |names| >= 2 && ';' !in pad + names[0] && Strip(pad + names[0]) == names[0]
    requires names[0] != []
    requires CleanPieces(Split(" " + Join("; ", names[1..]), ';')) == names[1..]
    ensures CleanPieces(Split(pad + Join("; ", names), ';')) == names
  {
    var first := pad + names[0];
    var rest := " " + Join("; ", names[1..]);
    JoinCons(pad, names);
    SplitAtFirst(first, ';', rest);
    CleanPiecesCons(first, Split(rest, ';'));
    HeadTail(names);
  }


  /** Joining clean names gives a cell with no surrounding whitespace. */
  lemma JoinStripped(names: seq<string>)
    requires forall i :: 0 <= i < |names| ==> IsCleanName(names[i])
    ensures IsStripped(Join("; ", names))
    ensures names != [] ==> Join("; ", names) != []
  {
    if names != [] {
      JoinEnds("; ", names);
    }
  }

  lemma ParseImagesOfStripped(cell: string)
    requires IsStripped(cell) && cell != []
    ensures ParseImages(cell) == CleanPieces(Split(cell, ';'))
  {
    StrippedIsFixed(cell);
  }

  /** Writing a list of clean names with '; ' and parsing the cell back gives the list. */
  lemma ParseImagesOfJoin(names: seq<string>)
    requires forall i :: 0 <= i < |names| ==> IsCleanName(names[i])
    ensures IsStripped(Join("; ", names))
    ensures ParseImages(Join("; ", names)) == names
  {
    JoinStripped(names);
    if names != [] {
      var j := Join("; ", names);
      ParseImagesOfStripped(j);
      SplitOfJoin(names);
    }
  }

  lemma SplitOfJoin(names: seq<string>)
    requires |names| >= 1 && forall i :: 0 <= i < |names| ==> IsCleanName(names[i])
    ensures CleanPieces(Split(Join("; ", names), ';')) == names
  {
    var j := Join("; ", names);
    assert "" + j == j;
    assert Split("" + j, ';') == Split(j, ';');
    CleanPiecesOfJoin("", names);
  }

  /** The image list of a cell as the scripts read it: the stripped,
      non-empty pieces of the stripped cell. */
  function StoredImages(cell: string): (r: seq<string>)
    ensures CleanNames(r)
  {
    CleanPiecesWithout(Split(Strip(cell), ';'), ';');
    CleanPieces(Split(Strip(cell), ';'))
  }

  /** Writing clean names into a cell and reading the cell back gives the names. */
  lemma StoredImagesOfJoin(names: seq<string>)
    requires CleanNames(names)
    ensures IsStripped(Join("; ", names))
    ensures StoredImages(Join("; ", names)) == names
  {
    ParseImagesOfJoin(names);
    StrippedIsFixed(Join("; ", names));
    if names == [] {
      assert Split("", ';') == [""];
    } else {
      assert Join("; ", names) != [] by { JoinEnds("; ", names); }
    }
  }

  // ---------------------------------------------------------------------------
  // int() and str() on integers
  // ---------------------------------------------------------------------------

  function DigitValue(c: char): nat
    requires IsDigit(c)
  {
    c as int - '0' as int
  }

  /** The value of a run of decimal digits, leading zeros allowed. */
  function DecimalValue(s: string): nat
    requires AllDigits(s)
    decreases |s|
  {
    if s == [] then 0 else DecimalValue(s[..|s| - 1]) * 10 + DigitValue(s[|s| - 1])
  }

  function DigitChar(d: nat): (c: char)
    requires d < 10
    ensures IsDigit(c) && DigitValue(c) == d
  {
    ('0' as int + d) as char
  }

  /** str(n) for n >= 0: reading it back gives n. */
  function NatToString(n: nat): (r: string)
    ensures r != [] && AllDigits(r) && DecimalValue(r) == n
    decreases n
  {
    if n < 10 then [DigitChar(n)]
    else
      var r := NatToString(n / 10) + [DigitChar(n % 10)];
      assert r[..|r| - 1] == NatToString(n / 10);
      r
  }

  /** str(n) */
  function IntToString(n: int): string
  {
    if n < 0 then "-" + NatToString(-n) else NatToString(n)
  }

  /** int(s) on a str: surrounding whitespace is dropped, then an optional
      sign and ASCII digits; anything else is the ValueError, here None. */
  function ParseInt(s: string): Option<int>
    decreases |s|
  {
    if s != [] && IsSpace(s[0]) then ParseInt(s[1..])
    else if s != [] && IsSpace(s[|s| - 1]) then ParseInt(s[..|s| - 1])
    else ParseSigned(s)
  }

  /** int() on text without surrounding whitespace. */
  function ParseSigned(t: string): (r: Option<int>)
    ensures r.Some? ==> t != []
  {
    if |t| > 0 && (t[0] == '-' || t[0] == '+') then
      if |t| > 1 && AllDigits(t[1..]) then
        Some(if t[0] == '-' then -(DecimalValue(t[1..]) as int) else DecimalValue(t[1..]) as int)
      else None
    else if |t| > 0 && AllDigits(t) then Some(DecimalValue(t))
    else None
  }

  /** int(str(n)) == n */
  lemma IntRoundTrip(n: int)
    ensures ParseInt(IntToString(n)) == Some(n)
    ensures ',' !in IntToString(n) && Strip(IntToString(n)) == IntToString(n)
  {
    var s := IntToString(n);
    if n < 0 { NegativeShape(n); } else { NatShape(n); }
    assert ParseInt(s) == ParseSigned(s);
    StrippedIsFixed(s);
  }

  lemma NatShape(n: nat)
    ensures var s := NatToString(n);
      !IsSpace(s[0]) && !IsSpace(s[|s| - 1]) && ',' !in s && ParseSigned(s) == Some(n)
  {
    var s := NatToString(n);
    assert IsDigit(s[|s| - 1]) && IsDigit(s[0]);
    forall k | 0 <= k < |s| ensures s[k] != ',' { assert IsDigit(s[k]); }
  }

  lemma NegativeShape(n: int)
    requires n < 0
    ensures var s := IntToString(n);
      s != [] && !IsSpace(s[0]) && !IsSpace(s[|s| - 1]) && ',' !in s && ParseSigned(s) == Some(n)
  {
    var s := IntToString(n);
    var d := NatToString(-n);
    NatShape(-n);
    assert s[1..] == d;
    assert s[|s| - 1] == d[|d| - 1];
    forall k | 1 <= k < |s| ensures s[k] != ',' { assert s[k] == d[k - 1]; }
  }

  // ---------------------------------------------------------------------------
  // The order sorted() puts strings in: code point by code point
  // ---------------------------------------------------------------------------

  predicate StrLt(a: string, b: string)
    decreases |a|
  {
    if a == [] then b != []
    else if b == [] then false
    else if a[0] != b[0] then a[0] < b[0]
    else StrLt(a[1..], b[1..])
  }

  predicate StrLe(a: string, b: string) { a == b || StrLt(a, b) }

  lemma {:induction false} StrLtIrreflexive(a: string)
    ensures !StrLt(a, a)
    decreases |a|
  {
    if a != [] { StrLtIrreflexive(a[1..]); }
  }

  lemma {:induction false} StrLtTransitive(a: string, b: string, c: string)
    requires StrLt(a, b) && StrLt(b, c)
    ensures StrLt(a, c)
    decreases |a|
  {
    if a != [] && b != [] && c != [] && a[0] == b[0] && b[0] == c[0] {
      StrLtTransitive(a[1..], b[1..], c[1..]);
    }
  }

  lemma {:induction false} StrLtTotal(a: string, b: string)
    ensures a == b || StrLt(a, b) || StrLt(b, a)
    decreases |a|
  {
    if a != [] && b != [] && a[0] == b[0] {
      StrLtTotal(a[1..], b[1..]);
      if a[1..] == b[1..] {
        assert a == [a[0]] + a[1..] && b == [b[0]] + b[1..];
      }
    }
  }

  predicate SortedStrings(s: seq<string>) {
    forall i :: 0 <= i < |s| - 1 ==> StrLe(s[i], s[i + 1])
  }

  function InsertString(x: string, s: seq<string>): (r: seq<string>)
    requires SortedStrings(s)
    ensures SortedStrings(r) && multiset(r) == multiset(s) + multiset{x}
    ensures r != [] && (r[0] == x || (s != [] && r[0] == s[0]))
    decreases |s|
  {
    if s == [] then [x]
    else if StrLe(x, s[0]) then [x] + s
    else
      var t := InsertString(x, s[1..]);
      StrLtTotal(x, s[0]);
      HeadTail(s);
      [s[0]] + t
  }

  /** sorted() on a list of strings. */
  function SortStrings(s: seq<string>): (r: seq<string>)
    ensures SortedStrings(r) && multiset(r) == multiset(s)
    decreases |s|
  {
    if s == [] then []
    else
      HeadTail(s);
      InsertString(s[0], SortStrings(s[1..]))
  }

  // ---------------------------------------------------------------------------
  // sorted() on a list of integers
  // ---------------------------------------------------------------------------

  predicate SortedInts(s: seq<int>) {
    forall i :: 0 <= i < |s| - 1 ==> s[i] <= s[i + 1]
  }

  function InsertInt(x: int, s: seq<int>): (r: seq<int>)
    requires SortedInts(s)
    ensures SortedInts(r) && multiset(r) == multiset(s) + multiset{x}
    ensures r != [] && (r[0] == x || (s != [] && r[0] == s[0]))
    decreases |s|
  {
    if s == [] then [x]
    else if x <= s[0] then [x] + s
    else
      HeadTail(s);
      [s[0]] + InsertInt(x, s[1..])
  }

  function SortInts(s: seq<int>): (r: seq<int>)
    ensures SortedInts(r) && multiset(r) == multiset(s)
    decreases |s|
  {
    if s == [] then []
    else
      HeadTail(s);
      InsertInt(s[0], SortInts(s[1..]))
  }

  // ---------------------------------------------------------------------------
  // Scanning
  // ---------------------------------------------------------------------------

  /** A slice of a run of digits is a run of digits. */
  lemma AllDigitsSlice(s: string, i: nat, j: nat, k: nat, l: nat)
    requires i <= k <= l <= j <= |s| && AllDigits(s[i..j])
    ensures AllDigits(s[k..l])
  {
    var w := s[k..l];
    var v := s[i..j];
    forall t | 0 <= t < |w| ensures IsDigit(w[t]) {
      assert w[t] == v[t + k - i];
    }
  }

  /** The end of the run of digits that starts at i. */
  function DigitRun(s: string, i: nat): (j: nat)
    requires i <= |s|
    ensures i <= j <= |s| && AllDigits(s[i..j]) && (j == |s| || !IsDigit(s[j]))
    decreases |s| - i
  {
    if i < |s| && IsDigit(s[i]) then
      var j := DigitRun(s, i + 1);
      assert s[i..j] == [s[i]] + s[i + 1..j];
      j
    else i
  }

  /** The end of the run of letters that starts at i. */
  function LetterRun(s: string, i: nat): (j: nat)
    requires i <= |s|
    ensures i <= j <= |s| && AllLetters(s[i..j]) && (j == |s| || !IsLetter(s[j]))
    decreases |s| - i
  {
    if i < |s| && IsLetter(s[i]) then
      var j := LetterRun(s, i + 1);
      assert s[i..j] == [s[i]] + s[i + 1..j];
      j
    else i
  }

  /** A maximal run of digits is the one DigitRun finds. */
  lemma DigitRunIs(s: string, i: nat, j: nat)
    requires i <= j <= |s| && AllDigits(s[i..j]) && (j == |s| || !IsDigit(s[j]))
    ensures DigitRun(s, i) == j
  {
    var r := DigitRun(s, i);
    forall t | i <= t < j ensures IsDigit(s[t]) { assert s[i..j][t - i] == s[t]; }
    forall t | i <= t < r ensures IsDigit(s[t]) { assert s[i..r][t - i] == s[t]; }
  }

  lemma DigitRunAt(s: string, i: nat, j: nat)
    requires i <= j < |s| && !IsDigit(s[j]) && forall t :: i <= t < j ==> IsDigit(s[t])
    ensures DigitRun(s, i) == j
  {
    var r := DigitRun(s, i);
    forall t | i <= t < r ensures IsDigit(s[t]) { assert s[i..r][t - i] == s[t]; }
  }

  lemma LetterRunIs(s: string, i: nat, j: nat)
    requires i <= j <= |s| && AllLetters(s[i..j]) && (j == |s| || !IsLetter(s[j]))
    ensures LetterRun(s, i) == j
  {
    var r := LetterRun(s, i);
    forall t | i <= t < j ensures IsLetter(s[t]) { assert s[i..j][t - i] == s[t]; }
    forall t | i <= t < r ensures IsLetter(s[t]) { assert s[i..r][t - i] == s[t]; }
  }

  /** s.rfind(c), or None when c does not occur. */
  function LastIndexOf(s: string, c: char): (r: Option<nat>)
    ensures r.None? <==> c !in s
    ensures r.Some? ==> r.value < |s| && s[r.value] == c && c !in s[r.value + 1..]
    decreases |s|
  {
    if s == [] then None
    else if s[|s| - 1] == c then Some(|s| - 1)
    else
      var r := LastIndexOf(s[..|s| - 1], c);
      assert s == s[..|s| - 1] + [s[|s| - 1]];
      if r.Some? then
        assert s[r.value + 1..] == s[..|s| - 1][r.value + 1..] + [s[|s| - 1]];
        r
      else r
  }

  /** The last occurrence is the one LastIndexOf finds. */
  lemma {:induction false} LastIndexOfIs(s: string, c: char, i: nat)
    requires i < |s| && s[i] == c && c !in s[i + 1..]
    ensures LastIndexOf(s, c) == Some(i)
    decreases |s|
  {
    if s[|s| - 1] != c {
      if i == |s| - 1 { assert false; }
      var init := s[..|s| - 1];
      assert init[i + 1..] + [s[|s| - 1]] == s[i + 1..];
      LastIndexOfIs(init, c, i);
    }
  }
}
