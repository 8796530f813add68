/** update_plot_images.py: recognise new-format image names such as
    ITC12-3F.jpg, find them in the yard folders and merge them into the
    `monument_images` cells of plots.csv, sorted by lot. The folders are a
    Listing of the base folder, keyed by the bare yard folder names
    ("OICA Church Yard" and so on). */
module PlotImages {
  import opened Wrappers
  import opened Text
  import opened Records
  import opened Collections

  /** YARD_MAPPINGS: folder name and yard code, in the dict's order. */
  const YardMappings: seq<(string, string)> :=
    [("OICA Church Yard", "CY"), ("OICA Intervale", "IT"), ("OICA New Yard", "NY"),
     ("OICA Old Yard", "OY"), ("OICA Upper Terrace", "UT")]

  /** The tuple parse_new_format_filename returns on a match. */
  datatype ParsedName = ParsedName(yardCode: string, plotId: string, lotNumber: nat,
                                   imageType: string, filename: string)

  // ---------------------------------------------------------------------------
  // The pattern ^([A-Z]{2})([A-Z]?\d+)-(\d+)[a-z]*([FBPV])?\.jpe?g$ with
  // re.IGNORECASE, first as the language it accepts, then as the matcher runs
  // ---------------------------------------------------------------------------

  predicate IsJpegExtension(e: string) { Lower(e) == "jpg" || Lower(e) == "jpeg" }

  /** `jpe?g$` from position k: `$` matches at the end or before a final newline. */
  predicate ExtensionToEnd(s: string, k: nat)
    requires k <= |s|
  {
    IsJpegExtension(s[k..]) || (k < |s| && s[|s| - 1] == '\n' && IsJpegExtension(s[k..|s| - 1]))
  }

  /** `\.jpe?g$` from position k. */
  predicate DotExtensionAt(s: string, k: nat) {
    k < |s| && s[k] == '.' && ExtensionToEnd(s, k + 1)
  }

  /** `[A-Z]?\d+` as a whole: digits, or one letter and then digits. */
  predicate PlotSuffixShape(t: string) {
    (|t| >= 1 && AllDigits(t)) || (|t| >= 2 && IsLetter(t[0]) && AllDigits(t[1..]))
  }

  /** s matches with the dash at `dash`, the lot digits ending at `lotEnd` and
      the dot of the extension at `dot`; the letters between lot and dot are
      `[a-z]*([FBPV])?`, which without case is any run of letters. */
  ghost predicate NewFormatAt(s: string, dash: nat, lotEnd: nat, dot: nat) {
    2 < dash && dash + 1 < lotEnd <= dot < |s|
    && IsLetter(s[0]) && IsLetter(s[1])
    && PlotSuffixShape(s[2..dash])
    && s[dash] == '-'
    && AllDigits(s[dash + 1..lotEnd])
    && AllLetters(s[lotEnd..dot])
    && DotExtensionAt(s, dot)
  }

  ghost predicate IsNewFormat(s: string) {
    exists dash: nat, lotEnd: nat, dot: nat :: NewFormatAt(s, dash, lotEnd, dot)
  }

  /** `[FBPV]` under re.IGNORECASE. */
  predicate IsTypeLetter(c: char) { UpperChar(c) in "FBPV" }

  /** `[a-z]*([FBPV])?\.jpe?g$` from position i, given the n letters s[i..i+n]:
      the backtracking matcher takes n letters, tries the optional group before
      skipping it, and gives letters back one at a time. The result is the
      capture of group 4 and the position of the dot. */
  function MatchTail(s: string, i: nat, n: nat): Option<(Option<char>, nat)>
    requires i + n <= |s|
    decreases n
  {
    var j := i + n;
    if j < |s| && IsTypeLetter(s[j]) && DotExtensionAt(s, j + 1) then Some((Some(s[j]), j + 1))
    else if DotExtensionAt(s, j) then Some((None, j))
    else if n == 0 then None
    else MatchTail(s, i, n - 1)
  }

  /** The tail match from position i, starting from all the letters there. */
  function LetterTail(s: string, i: nat): Option<(Option<char>, nat)>
    requires i <= |s|
  {
    MatchTail(s, i, LetterRun(s, i) - i)
  }

  /** Where `\d+` of group 2 starts: after the optional letter. */
  function PlotStart(s: string): (p: nat)
    requires |s| >= 2
    ensures 2 <= p <= 3 && p <= |s|
  {
    if |s| > 2 && IsLetter(s[2]) then 3 else 2
  }

  /** Where re.match found the pattern: the dash, the end of the lot digits,
      the dot of the extension and what group 4 captured. */
  datatype Match = Match(dash: nat, lotEnd: nat, dot: nat, group4: Option<char>)

  /** re.match of the pattern, following the matcher: `[A-Z]?` and the two digit
      runs are greedy, and giving any of them back cannot help, because the next
      character the pattern wants is never a digit or a letter there. */
  function MatchNewFormat(s: string): (m: Option<Match>)
    ensures m.Some? ==> 2 < m.value.dash && m.value.dash + 1 < m.value.lotEnd <= |s|
  {
    if |s| < 2 || !IsLetter(s[0]) || !IsLetter(s[1]) then None
    else MatchAfterPlot(s, DigitRun(s, PlotStart(s)))
  }

  /** The rest of the match once `([A-Z]{2})([A-Z]?\d+)` has taken s[..dash]. */
  function MatchAfterPlot(s: string, dash: nat): (m: Option<Match>)
    requires |s| >= 2 && dash <= |s|
    ensures m.Some? ==> m.value.dash == dash && dash + 1 < m.value.lotEnd <= |s|
  {
    if dash == PlotStart(s) || dash == |s| || s[dash] != '-' then None
    else MatchAfterLot(s, dash, DigitRun(s, dash + 1))
  }

  /** The rest of the match once `-(\d+)` has taken s[dash..lotEnd]. */
  function MatchAfterLot(s: string, dash: nat, lotEnd: nat): (m: Option<Match>)
    requires dash < lotEnd <= |s|
    ensures m.Some? ==> m.value.dash == dash && m.value.lotEnd == lotEnd
  {
    if lotEnd == dash + 1 then None
    else
      var tail := LetterTail(s, lotEnd);
      if tail.None? then None
      else Some(Match(dash, lotEnd, tail.value.1, tail.value.0))
  }

  /** parse_new_format_filename: the groups of the match, upper-cased, with the
      lot number converted by int(). */
  function ParseNewFormat(s: string): Option<ParsedName>
  {
    match MatchNewFormat(s)
    case None => None
    case Some(m) =>
      Some(ParsedName(Upper(s[..2]), Upper(s[..2]) + Upper(s[2..m.dash]),
                      DecimalValue(s[m.dash + 1..m.lotEnd]),
                      if m.group4.Some? then [UpperChar(m.group4.value)] else "", s))
  }

  lemma {:induction false} TailNoCapture(s: string, i: nat, n: nat)
    requires i + n <= |s|
    requires forall k :: i <= k < i + n ==> IsLetter(s[k])
    requires i + n < |s| ==> !IsTypeLetter(s[i + n]) || !DotExtensionAt(s, i + n + 1)
    ensures MatchTail(s, i, n).Some? ==> MatchTail(s, i, n).value.0.None?
    ensures MatchTail(s, i, n).Some? ==> i <= MatchTail(s, i, n).value.1 <= i + n
    ensures MatchTail(s, i, n).Some? ==> DotExtensionAt(s, MatchTail(s, i, n).value.1)
    decreases n
  {
    if !DotExtensionAt(s, i + n) && n > 0 {
      TailNoCapture(s, i, n - 1);
    }
  }

  /** The letters before the dot: all of them, wherever the dot is. */
  lemma TailFromRun(s: string, i: nat)
    requires i <= |s|
    ensures LetterTail(s, i).Some? ==>
      LetterTail(s, i).value.0.None? && i <= LetterTail(s, i).value.1 <= LetterRun(s, i)
      && DotExtensionAt(s, LetterTail(s, i).value.1)
  {
    var m := LetterRun(s, i) - i;
    assert forall k :: i <= k < i + m ==> IsLetter(s[k]) by {
      assert forall k :: i <= k < i + m ==> s[i..i + m][k - i] == s[k];
    }
    TailNoCapture(s, i, m);
  }

  /** Group 4 never takes part in a match: the greedy `[a-z]*` has already
      consumed any trailing F, B, P or V, so every image type comes out empty. */
  lemma ImageTypeAlwaysEmpty(s: string)
    ensures ParseNewFormat(s).Some? ==> ParseNewFormat(s).value.imageType == ""
  {
    if MatchNewFormat(s).Some? {
      MatchFound(s);
    }
  }

  /** The matcher accepts exactly the names of the pattern's language ... */
  lemma ParseIffNewFormat(s: string)
    ensures ParseNewFormat(s).Some? <==> IsNewFormat(s)
  {
    if MatchNewFormat(s).Some? {
      MatchFound(s);
      var m := MatchNewFormat(s).value;
      assert NewFormatAt(s, m.dash, m.lotEnd, m.dot);
    }
    if IsNewFormat(s) {
      var dash: nat, lotEnd: nat, dot: nat :| NewFormatAt(s, dash, lotEnd, dot);
      ParseOnMatch(s, dash, lotEnd, dot);
    }
  }

  /** What a successful match has seen. */
  lemma MatchFound(s: string)
    requires MatchNewFormat(s).Some?
    ensures var m := MatchNewFormat(s).value; NewFormatAt(s, m.dash, m.lotEnd, m.dot) && m.group4.None?
  {
    var p := PlotStart(s);
    var dash := DigitRun(s, p);
    var lotEnd := DigitRun(s, dash + 1);
    var run := LetterRun(s, lotEnd);
    MatchUnfolds(s);
    var dot := LetterTail(s, lotEnd).value.1;
    TailFromRun(s, lotEnd);
    SuffixShape(s, p, dash);
    LettersBeforeDot(s, lotEnd, run, dot);
  }

  /** A successful match, unfolded: the scans it made and what they found. */
  lemma MatchUnfolds(s: string)
    requires MatchNewFormat(s).Some?
    ensures |s| >= 2 && IsLetter(s[0]) && IsLetter(s[1])
    ensures var p := PlotStart(s); var dash := DigitRun(s, p);
      p < dash < |s| && s[dash] == '-'
      && var lotEnd := DigitRun(s, dash + 1);
      dash + 1 < lotEnd
      && var tail := LetterTail(s, lotEnd);
      tail.Some? && MatchNewFormat(s) == Some(Match(dash, lotEnd, tail.value.1, tail.value.0))
  {
    assert |s| >= 2 && IsLetter(s[0]) && IsLetter(s[1]);
    var p := PlotStart(s);
    var dash := DigitRun(s, p);
    assert MatchNewFormat(s) == MatchAfterPlot(s, dash);
    assert dash != p && dash < |s| && s[dash] == '-';
    var lotEnd := DigitRun(s, dash + 1);
    var m := MatchAfterLot(s, dash, lotEnd);
    assert MatchAfterPlot(s, dash) == m;
    assert m.Some? && lotEnd != dash + 1;
    var tail := LetterTail(s, lotEnd);
    assert tail.Some? && m == Some(Match(dash, lotEnd, tail.value.1, tail.value.0));
  }

  lemma LettersBeforeDot(s: string, i: nat, run: nat, dot: nat)
    requires i <= dot <= run <= |s| && AllLetters(s[i..run])
    ensures AllLetters(s[i..dot])
  {
    assert s[i..dot] == s[i..run][..dot - i];
  }

  lemma SuffixShape(s: string, p: nat, dash: nat)
    requires |s| >= 2 && p == PlotStart(s) && p < dash <= |s|
    requires AllDigits(s[p..dash])
    ensures 2 < dash && PlotSuffixShape(s[2..dash])
  {
    if p == 3 {
      assert s[2..dash][1..] == s[p..dash];
    } else {
      assert s[2..dash] == s[p..dash];
    }
  }

  /** Where a matching name's dash, lot digits and dot are, the scans find them. */
  lemma PositionsOnMatch(s: string, dash: nat, lotEnd: nat, dot: nat)
    requires NewFormatAt(s, dash, lotEnd, dot)
    ensures DigitRun(s, PlotStart(s)) == dash
    ensures DigitRun(s, dash + 1) == lotEnd
    ensures LetterRun(s, lotEnd) == dot
  {
    var t := s[2..dash];
    assert t[0] == s[2];
    if IsLetter(s[2]) {
      assert t[1..] == s[3..dash];
      DigitRunIs(s, 3, dash);
    } else {
      DigitRunIs(s, 2, dash);
    }
    assert lotEnd < dot ==> s[lotEnd..dot][0] == s[lotEnd];
    DigitRunIs(s, dash + 1, lotEnd);
    LetterRunIs(s, lotEnd, dot);
  }

  lemma UpperSplit(s: string, k: nat, n: nat)
    requires k <= n <= |s|
    ensures Upper(s[..k]) + Upper(s[k..n]) == Upper(s[..n])
  {
  }

  /** ... and on a match it returns these fields: the yard code and the plot id
      upper-cased, the lot number's value and an empty image type. */
  lemma ParseOnMatch(s: string, dash: nat, lotEnd: nat, dot: nat)
    requires NewFormatAt(s, dash, lotEnd, dot)
    ensures ParseNewFormat(s) == Some(ParsedName(Upper(s[..2]), Upper(s[..dash]),
                                                 DecimalValue(s[dash + 1..lotEnd]), "", s))
  {
    MatchOnMatch(s, dash, lotEnd, dot);
    UpperSplit(s, 2, dash);
  }

  lemma MatchOnMatch(s: string, dash: nat, lotEnd: nat, dot: nat)
    requires NewFormatAt(s, dash, lotEnd, dot)
    ensures MatchNewFormat(s) == Some(Match(dash, lotEnd, dot, None))
  {
    PositionsOnMatch(s, dash, lotEnd, dot);
    var p := PlotStart(s);
    assert p < dash by {
      if p == 3 { assert s[2..dash][0] == s[2]; }
    }
    TailAtDot(s, lotEnd, dot);
    assert LetterTail(s, lotEnd) == Some((None, dot));
  }

  /** With no letters left to give back, the tail match stops at the dot. */
  lemma TailAtDot(s: string, i: nat, dot: nat)
    requires i <= dot && DotExtensionAt(s, dot)
    ensures MatchTail(s, i, dot - i) == Some((None, dot))
  {
    DotIsNoType();
  }

  lemma DotIsNoType()
    ensures !IsTypeLetter('.')
  {
  }

  /** The docstring's example: the F is read as part of the lot letters. */
  lemma ExampleName()
    ensures ParseNewFormat("ITC12-3F.jpg") == Some(ParsedName("IT", "ITC12", 3, "", "ITC12-3F.jpg"))
  {
    ExampleShape();
    ParseOnMatch("ITC12-3F.jpg", 5, 7, 8);
    ExampleFields();
  }

  lemma ExampleShape()
    ensures NewFormatAt("ITC12-3F.jpg", 5, 7, 8)
  {
    var s := "ITC12-3F.jpg";
    assert s[2..5] == "C12" && s[6..7] == "3" && s[7..8] == "F" && s[9..] == "jpg";
    assert PlotSuffixShape(s[2..5]) by { assert s[2..5][1..] == "12"; }
    assert Lower("jpg") == "jpg";
  }

  lemma ExampleFields()
    ensures var s := "ITC12-3F.jpg"; Upper(s[..2]) == "IT" && Upper(s[..5]) == "ITC12" && DecimalValue(s[6..7]) == 3
  {
    var s := "ITC12-3F.jpg";
    assert s[..2] == "IT" && s[..5] == "ITC12" && s[6..7] == "3";
    assert DecimalValue("3") == 3;
  }

  // ---------------------------------------------------------------------------
  // sort_images
  // ---------------------------------------------------------------------------

  /** IMAGE_TYPE_PRIORITY.get(t, 99) */
  function TypePriority(t: string): nat
  {
    if t == "F" then 1 else if t == "B" then 2 else if t == "P" then 3
    else if t == "V" then 4 else if t == "" then 5 else 99
  }

  /** get_sort_key: (-lot, type priority) for a new-format name, (0, 99) otherwise. */
  function SortKey(img: string): (int, int)
  {
    match ParseNewFormat(img)
    case None => (0, 99)
    case Some(p) => var lot: int := p.lotNumber; (-lot, TypePriority(p.imageType))
  }

  /** Tuple comparison. */
  predicate KeyLt(a: (int, int), b: (int, int)) {
    a.0 < b.0 || (a.0 == b.0 && a.1 < b.1)
  }

  predicate SortedByKey(s: seq<string>) {
    forall i :: 0 <= i < |s| - 1 ==> !KeyLt(SortKey(s[i + 1]), SortKey(s[i]))
  }

  /** Puts x before the first element whose key is not smaller than its own. */
  function InsertImage(x: string, s: seq<string>): (r: seq<string>)
    requires SortedByKey(s)
    ensures SortedByKey(r) && multiset(r) == multiset(s) + multiset{x}
    ensures r != [] && (r[0] == x || (s != [] && r[0] == s[0]))
    decreases |s|
  {
    if s == [] then [x]
    else if !KeyLt(SortKey(s[0]), SortKey(x)) then [x] + s
    else
      HeadTail(s);
      [s[0]] + InsertImage(x, s[1..])
  }

  /** sorted(image_list, key=get_sort_key): ordered by key, a permutation. */
  function SortImages(s: seq<string>): (r: seq<string>)
    ensures SortedByKey(r) && multiset(r) == multiset(s)
    decreases |s|
  {
    if s == [] then []
    else
      HeadTail(s);
      InsertImage(s[0], SortImages(s[1..]))
  }

  /** The names of s whose key is k, in their order in s. */
  function WithKey(s: seq<string>, k: (int, int)): seq<string>
    decreases |s|
  {
    if s == [] then []
    else (if SortKey(s[0]) == k then [s[0]] else []) + WithKey(s[1..], k)
  }

  lemma WithKeyCons(a: string, t: seq<string>, k: (int, int))
    ensures WithKey([a] + t, k) == (if SortKey(a) == k then [a] else []) + WithKey(t, k)
  {
    assert ([a] + t)[1..] == t;
  }

  lemma {:induction false} InsertImageWithKey(x: string, s: seq<string>, k: (int, int))
    requires SortedByKey(s)
    ensures WithKey(InsertImage(x, s), k) == (if SortKey(x) == k then [x] else []) + WithKey(s, k)
    decreases |s|
  {
    if s == [] {
      WithKeyOne(x, k);
      var mine := if SortKey(x) == k then [x] else [];
      AppendEmpty(mine);
      assert WithKey(s, k) == [];
    } else if KeyLt(SortKey(s[0]), SortKey(x)) {
      InsertImageWithKey(x, s[1..], k);
      WithKeyCons(s[0], InsertImage(x, s[1..]), k);
      HeadTail(s);
      WithKeyCons(s[0], s[1..], k);
      var first := if SortKey(s[0]) == k then [s[0]] else [];
      var mine := if SortKey(x) == k then [x] else [];
      assert first == [] || mine == [];
      BothSides(first, mine, WithKey(s[1..], k));
    } else {
      WithKeyCons(x, s, k);
    }
  }

  lemma WithKeyOne(x: string, k: (int, int))
    ensures WithKey([x], k) == if SortKey(x) == k then [x] else []
  {
    var mine := if SortKey(x) == k then [x] else [];
    assert WithKey([x][1..], k) == [];
    AppendEmpty(mine);
  }



  /** sorted() is stable: names with equal keys keep their relative order. */
  lemma {:induction false} SortImagesStable(s: seq<string>, k: (int, int))
    ensures WithKey(SortImages(s), k) == WithKey(s, k)
    decreases |s|
  {
    if s != [] {
      SortImagesStable(s[1..], k);
      InsertImageWithKey(s[0], SortImages(s[1..]), k);
    }
  }

  /** Adjacent order gives order between any two positions. */
  lemma {:induction false} SortedAnyTwo(s: seq<string>, i: nat, j: nat)
    requires SortedByKey(s) && i < j < |s|
    ensures !KeyLt(SortKey(s[j]), SortKey(s[i]))
    decreases j - i
  {
    if i + 1 < j {
      SortedAnyTwo(s, i + 1, j);
      assert !KeyLt(SortKey(s[i + 1]), SortKey(s[i]));
    }
  }

  /** In a sorted list every new-format name comes before every other name and
      lot numbers never increase from left to right. */
  lemma SortedLots(s: seq<string>, i: nat, j: nat)
    requires SortedByKey(s) && i < j < |s| && ParseNewFormat(s[j]).Some?
    ensures ParseNewFormat(s[i]).Some?
    ensures ParseNewFormat(s[i]).value.lotNumber >= ParseNewFormat(s[j]).value.lotNumber
  {
    SortedAnyTwo(s, i, j);
    ImageTypeAlwaysEmpty(s[i]);
    ImageTypeAlwaysEmpty(s[j]);
  }

  /** A sorted list is left as it is. */
  lemma {:induction false} SortImagesOfSorted(s: seq<string>)
    requires SortedByKey(s)
    ensures SortImages(s) == s
    decreases |s|
  {
    if s != [] {
      SortImagesOfSorted(s[1..]);
      HeadTail(s);
    }
  }

  /** The docstring promises F before B within a lot; the order stays the
      order of the input instead, because both keys are (-3, 5). */
  lemma SameLotKeepsOrder()
    ensures SortImages(["ITC12-3B.jpg", "ITC12-3F.jpg"]) == ["ITC12-3B.jpg", "ITC12-3F.jpg"]
  {
    ExampleBack();
    ExampleName();
    assert SortKey("ITC12-3B.jpg") == SortKey("ITC12-3F.jpg");
    SortedPair("ITC12-3B.jpg", "ITC12-3F.jpg");
  }

  /** Two names whose keys are in order are left in that order. */
  lemma SortedPair(a: string, b: string)
    requires !KeyLt(SortKey(b), SortKey(a))
    ensures SortImages([a, b]) == [a, b]
  {
    SortImagesOfSorted([a, b]);
  }

  lemma ExampleBack()
    ensures ParseNewFormat("ITC12-3B.jpg") == Some(ParsedName("IT", "ITC12", 3, "", "ITC12-3B.jpg"))
  {
    var s := "ITC12-3B.jpg";
    ExampleShapeB();
    ParseOnMatch(s, 5, 7, 8);
    ExampleFieldsB();
  }

  lemma ExampleFieldsB()
    ensures var s := "ITC12-3B.jpg"; Upper(s[..2]) == "IT" && Upper(s[..5]) == "ITC12" && DecimalValue(s[6..7]) == 3
  {
    var s := "ITC12-3B.jpg";
    assert s[..2] == "IT" && s[..5] == "ITC12" && s[6..7] == "3";
    assert DecimalValue("3") == 3;
  }

  lemma ExampleShapeB()
    ensures NewFormatAt("ITC12-3B.jpg", 5, 7, 8)
  {
    var s := "ITC12-3B.jpg";
    assert s[2..5] == "C12" && s[6..7] == "3" && s[7..8] == "B" && s[9..] == "jpg";
    assert PlotSuffixShape(s[2..5]) by { assert s[2..5][1..] == "12"; }
    assert Lower("jpg") == "jpg";
  }

  // ---------------------------------------------------------------------------
  // Combining a cell's images with the new ones, case-insensitively
  // ---------------------------------------------------------------------------

  /** The lower-cased names of a list. */
  function Lowers(m: seq<string>): set<string>
  {
    set i | 0 <= i < |m| :: Lower(m[i])
  }

  /** The combined list update_plots_csv builds: the existing names as they
      are, then each new name whose lower-cased form has not been seen. */
  function Merged(existing: seq<string>, incoming: seq<string>): (r: seq<string>)
    ensures |existing| <= |r| && r[..|existing|] == existing
    ensures forall i :: |existing| <= i < |r| ==> r[i] in incoming
    ensures forall i, j :: 0 <= i < j < |r| && |existing| <= j ==> Lower(r[i]) != Lower(r[j])
    ensures forall i :: 0 <= i < |incoming| ==> Lower(incoming[i]) in Lowers(r)
    decreases |incoming|
  {
    if incoming == [] then existing
    else
      var m := Merged(existing, incoming[..|incoming| - 1]);
      var x := incoming[|incoming| - 1];
      assert forall i :: 0 <= i < |incoming| - 1 ==> incoming[i] == incoming[..|incoming| - 1][i];
      if Lower(x) in Lowers(m) then m
      else
        assert forall i :: 0 <= i < |m| ==> Lower(m[i]) != Lower(x);
        assert forall i :: 0 <= i < |m| ==> (m + [x])[i] == m[i];
        LowersAppend(m, x);
        m + [x]
  }

  /** Nothing is added when every new name is already present up to case. */
  lemma {:induction false} MergedFixpoint(existing: seq<string>, incoming: seq<string>)
    requires forall i :: 0 <= i < |incoming| ==> Lower(incoming[i]) in Lowers(existing)
    ensures Merged(existing, incoming) == existing
    decreases |incoming|
  {
    if incoming != [] {
      MergedFixpoint(existing, incoming[..|incoming| - 1]);
    }
  }

  /** The additions in the order they are made: each new name whose
      lower-cased form is neither in the list so far nor in an earlier new
      name, so the first variant seen is the one added. */
  function FirstVariants(existing: seq<string>, incoming: seq<string>): (r: seq<string>)
    ensures forall i :: 0 <= i < |r| ==> r[i] in incoming && Lower(r[i]) !in Lowers(existing)
    decreases |incoming|
  {
    if incoming == [] then []
    else if Lower(incoming[0]) in Lowers(existing) then FirstVariants(existing, incoming[1..])
    else
      var rest := FirstVariants(existing + [incoming[0]], incoming[1..]);
      LowersAppend(existing, incoming[0]);
      [incoming[0]] + rest
  }

  /** Merging two batches in turn is merging their concatenation. */
  lemma {:induction false} MergedConcat(existing: seq<string>, a: seq<string>, b: seq<string>)
    ensures Merged(existing, a + b) == Merged(Merged(existing, a), b)
    decreases |b|
  {
    if b == [] {
      assert a + b == a;
    } else {
      var b' := b[..|b| - 1];
      MergedConcat(existing, a, b');
      assert (a + b)[..|a + b| - 1] == a + b';
      assert (a + b)[|a + b| - 1] == b[|b| - 1];
    }
  }

  /** The combined list is the existing one followed by the first variant of
      each new name, in the order the new names come. */
  lemma {:induction false} MergedAdditions(existing: seq<string>, incoming: seq<string>)
    ensures Merged(existing, incoming) == existing + FirstVariants(existing, incoming)
    decreases |incoming|
  {
    if incoming != [] {
      var x, rest := incoming[0], incoming[1..];
      assert incoming == [x] + rest;
      MergedConcat(existing, [x], rest);
      MergedOne(existing, x);
      if Lower(x) in Lowers(existing) {
        MergedAdditions(existing, rest);
      } else {
        MergedAdditions(existing + [x], rest);
      }
    }
  }

  /** Merging one name adds it exactly when it is new up to case. */
  lemma MergedOne(existing: seq<string>, x: string)
    ensures Merged(existing, [x]) == if Lower(x) in Lowers(existing) then existing else existing + [x]
  {
    assert [x][..0] == [];
  }

  lemma LowersAppend(m: seq<string>, x: string)
    ensures Lowers(m + [x]) == Lowers(m) + {Lower(x)}
  {
    var l := m + [x];
    assert forall i :: 0 <= i < |m| ==> l[i] == m[i];
    assert l[|m|] == x;
  }

  /** The loop of update_plots_csv that fills `combined`, with its set
      `existing_lower`. */
  method Combine(existing: seq<string>, incoming: seq<string>) returns (combined: seq<string>)
    ensures combined == Merged(existing, incoming)
  {
    var existingLower := set i | 0 <= i < |existing| :: Lower(existing[i]);
    combined := existing;
    for i := 0 to |incoming|
      invariant combined == Merged(existing, incoming[..i])
      invariant existingLower == Lowers(combined)
    {
      var x := incoming[i];
      PrefixSnoc(incoming, i);
      if Lower(x) !in existingLower {
        LowersAppend(combined, x);
        combined := combined + [x];
        existingLower := existingLower + {Lower(x)};
      }
    }
    Whole(incoming);
  }

  // ---------------------------------------------------------------------------
  // scan_images
  // ---------------------------------------------------------------------------

  /** filename.lower().endswith(('.jpg', '.jpeg')) */
  predicate IsJpegName(name: string) {
    EndsWith(Lower(name), ".jpg") || EndsWith(Lower(name), ".jpeg")
  }

  /** A file scan_images keeps for a folder with the given yard code. */
  predicate Accepts(name: string, code: string) {
    IsJpegName(name) && ParseNewFormat(name).Some? && ParseNewFormat(name).value.yardCode == code
  }

  /** The names of one folder that scan_images lists under plot `pid`, in
      listing order. */
  function FolderHits(files: seq<string>, code: string, pid: string): seq<string>
    decreases |files|
  {
    if files == [] then []
    else
      var f := files[|files| - 1];
      FolderHits(files[..|files| - 1], code, pid) + Hit(f, code, pid)
  }

  /** new_images[pid] after scanning the existing folders of `yards` in order. */
  function ScanHits(yards: seq<(string, string)>, tree: Listing, pid: string): seq<string>
    decreases |yards|
  {
    if yards == [] then []
    else
      var y := yards[|yards| - 1];
      ScanHits(yards[..|yards| - 1], tree, pid)
        + (if y.0 in tree then FolderHits(tree[y.0], y.1, pid) else [])
  }



  /** The one-name contribution of `name` to plot `pid`'s list. */
  function Hit(name: string, code: string, pid: string): seq<string>
  {
    if Accepts(name, code) && ParseNewFormat(name).value.plotId == pid then [name] else []
  }

  lemma FolderHitsStep(files: seq<string>, j: nat, code: string, pid: string)
    requires j < |files|
    ensures FolderHits(files[..j + 1], code, pid) == FolderHits(files[..j], code, pid) + Hit(files[j], code, pid)
  {
    PrefixSnoc(files, j);
  }



  /** The body of scan_images's inner loop: file the name under its plot when
      it is a JPEG name, parses, and carries the folder's yard code. */
  method AddIfAccepted(found: map<string, seq<string>>, f: string, code: string)
    returns (found': map<string, seq<string>>)
    requires forall pid :: pid in found ==> found[pid] != []
    ensures forall pid :: ListAt(found', pid) == ListAt(found, pid) + Hit(f, code, pid)
    ensures forall pid :: pid in found' ==> found'[pid] != []
  {
    found' := found;
    if IsJpegName(f) {
      var parsed := ParseNewFormat(f);
      if parsed.Some? && parsed.value.yardCode == code {
        var pid := parsed.value.plotId;
        found' := found'[pid := ListAt(found', pid) + [f]];
        forall p ensures ListAt(found', p) == ListAt(found, p) + Hit(f, code, p) {
          if p == pid {
            assert Hit(f, code, p) == [f];
          } else {
            assert Hit(f, code, p) == [];
          }
        }
      } else {
        assert forall p :: Hit(f, code, p) == [];
      }
    } else {
      assert forall p :: Hit(f, code, p) == [];
    }
  }

  lemma ScanStep(found: map<string, seq<string>>, before: map<string, seq<string>>,
                 after: map<string, seq<string>>, files: seq<string>, j: nat, code: string)
    requires j < |files|
    requires forall p :: ListAt(before, p) == ListAt(found, p) + FolderHits(files[..j], code, p)
    requires forall p :: ListAt(after, p) == ListAt(before, p) + Hit(files[j], code, p)
    ensures forall p :: ListAt(after, p) == ListAt(found, p) + FolderHits(files[..j + 1], code, p)
  {
    forall p ensures ListAt(after, p) == ListAt(found, p) + FolderHits(files[..j + 1], code, p) {
      FolderHitsStep(files, j, code, p);
      ConcatAssoc(ListAt(found, p), FolderHits(files[..j], code, p), Hit(files[j], code, p));
    }
  }

  /** The inner loop of scan_images over one folder's listing. */
  method ScanFolder(found: map<string, seq<string>>, files: seq<string>, code: string)
    returns (found': map<string, seq<string>>)
    requires forall pid :: pid in found ==> found[pid] != []
    ensures forall pid :: ListAt(found', pid) == ListAt(found, pid) + FolderHits(files, code, pid)
    ensures forall pid :: pid in found' ==> found'[pid] != []
  {
    found' := found;
    for j := 0 to |files|
      invariant forall pid :: ListAt(found', pid) == ListAt(found, pid) + FolderHits(files[..j], code, pid)
      invariant forall pid :: pid in found' ==> found'[pid] != []
    {
      ghost var before := found';
      found' := AddIfAccepted(found', files[j], code);
      ScanStep(found, before, found', files, j, code);
    }
    Whole(files);
  }

  /** scan_images: `tree` is None when the base folder is missing. A plot is a
      key exactly when some accepted name belongs to it, and its list holds those
      names folder by folder in listing order. */
  method ScanImages(tree: Option<Listing>) returns (found: map<string, seq<string>>)
    ensures tree.None? ==> found == map[]
    ensures tree.Some? ==> forall pid :: ListAt(found, pid) == ScanHits(YardMappings, tree.value, pid)
    ensures forall pid :: pid in found ==> found[pid] != []
  {
    found := map[];
    if tree.None? {
      return;
    }
    var listing := tree.value;
    for y := 0 to |YardMappings|
      invariant forall pid :: ListAt(found, pid) == ScanHits(YardMappings[..y], listing, pid)
      invariant forall pid :: pid in found ==> found[pid] != []
    {
      var (folder, code) := YardMappings[y];
      PrefixSnoc(YardMappings, y);
      if folder in listing {
        found := ScanFolder(found, listing[folder], code);
      }
    }
    Whole(YardMappings);
  }

  /** Every name FolderHits lists is in the folder, accepted, and of plot pid. */
  lemma {:induction false} FolderHitsSound(files: seq<string>, code: string, pid: string, i: nat)
    requires i < |FolderHits(files, code, pid)|
    ensures var f := FolderHits(files, code, pid)[i];
      f in files && Accepts(f, code) && ParseNewFormat(f).value.plotId == pid
    decreases |files|
  {
    var init := files[..|files| - 1];
    if i < |FolderHits(init, code, pid)| {
      FolderHitsSound(init, code, pid, i);
      assert FolderHits(files, code, pid)[i] == FolderHits(init, code, pid)[i];
    }
  }

  /** Every accepted name of a folder is listed under its plot. */
  lemma {:induction false} FolderHitsComplete(files: seq<string>, code: string, k: nat)
    requires k < |files| && Accepts(files[k], code)
    ensures files[k] in FolderHits(files, code, ParseNewFormat(files[k]).value.plotId)
    decreases |files|
  {
    if k < |files| - 1 {
      FolderHitsComplete(files[..|files| - 1], code, k);
    }
  }

  /** What scan_images finds for a plot was in an existing yard folder whose
      code is the name's yard code. */
  lemma {:induction false} ScanHitsSound(yards: seq<(string, string)>, tree: Listing, pid: string, i: nat)
    requires i < |ScanHits(yards, tree, pid)|
    ensures var f := ScanHits(yards, tree, pid)[i];
      ParseNewFormat(f).Some? && ParseNewFormat(f).value.plotId == pid
      && exists y :: 0 <= y < |yards| && yards[y].0 in tree && f in tree[yards[y].0] && Accepts(f, yards[y].1)
    decreases |yards|
  {
    var init := yards[..|yards| - 1];
    var last := yards[|yards| - 1];
    var f := ScanHits(yards, tree, pid)[i];
    if i < |ScanHits(init, tree, pid)| {
      ScanHitsSound(init, tree, pid, i);
      assert f == ScanHits(init, tree, pid)[i];
      var y :| 0 <= y < |init| && init[y].0 in tree && f in tree[init[y].0] && Accepts(f, init[y].1);
      assert yards[y] == init[y];
    } else {
      FolderHitsSound(tree[last.0], last.1, pid, i - |ScanHits(init, tree, pid)|);
      assert yards[|yards| - 1] == last;
    }
  }

  /** Every accepted name in an existing yard folder is found for its plot. */
  lemma {:induction false} ScanHitsComplete(yards: seq<(string, string)>, tree: Listing, y: nat, k: nat)
    requires y < |yards| && yards[y].0 in tree && k < |tree[yards[y].0]|
    requires Accepts(tree[yards[y].0][k], yards[y].1)
    ensures var f := tree[yards[y].0][k]; f in ScanHits(yards, tree, ParseNewFormat(f).value.plotId)
    decreases |yards|
  {
    var f := tree[yards[y].0][k];
    var pid := ParseNewFormat(f).value.plotId;
    if y < |yards| - 1 {
      var init := yards[..|yards| - 1];
      assert init[y] == yards[y];
      ScanHitsComplete(init, tree, y, k);
    } else {
      FolderHitsComplete(tree[yards[y].0], yards[y].1, k);
    }
  }

  /** A found plot id begins with the name's yard code. */
  lemma PlotIdHasYardCode(f: string)
    requires ParseNewFormat(f).Some?
    ensures var p := ParseNewFormat(f).value; |p.plotId| >= 2 && p.plotId[..2] == p.yardCode
  {
  }

  /** A name scan_images keeps has no surrounding blanks and no ';', so it
      survives being written into a cell and parsed back. */
  lemma AcceptedIsClean(f: string, code: string)
    requires Accepts(f, code)
    ensures IsCleanName(f)
  {
    MatchFound(f);
    var m := MatchNewFormat(f).value;
    forall k | 0 <= k < |f| ensures f[k] != ';' {
      NoSemicolonAt(f, m.dash, m.lotEnd, m.dot, k);
    }
    JpegNameEnd(f);
  }

  /** A name ending in .jpg or .jpeg up to case ends in a letter. */
  lemma JpegNameEnd(f: string)
    requires IsJpegName(f)
    ensures f != [] && !IsSpace(f[|f| - 1])
  {
    var l := Lower(f);
    assert l[|l| - 1] == 'g';
    assert LowerChar(f[|f| - 1]) == 'g';
  }

  lemma NoSemicolonAt(s: string, dash: nat, lotEnd: nat, dot: nat, k: nat)
    requires NewFormatAt(s, dash, lotEnd, dot) && k < |s|
    ensures s[k] != ';'
  {
    if 2 <= k < dash {
      PlotNoSemicolon(s[2..dash], k - 2);
    } else if dash < k < lotEnd {
      assert s[k] == s[dash + 1..lotEnd][k - dash - 1];
    } else if lotEnd <= k < dot {
      assert s[k] == s[lotEnd..dot][k - lotEnd];
    } else if dot < k {
      ExtensionNoSemicolon(s, dot, k);
    }
  }

  lemma PlotNoSemicolon(t: string, i: nat)
    requires PlotSuffixShape(t) && i < |t|
    ensures t[i] != ';'
  {
    if i > 0 { assert t[i] == t[1..][i - 1]; }
  }

  lemma ExtensionNoSemicolon(s: string, dot: nat, k: nat)
    requires DotExtensionAt(s, dot) && dot < k < |s|
    ensures s[k] != ';'
  {
    var e := if IsJpegExtension(s[dot + 1..]) then s[dot + 1..] else s[dot + 1..|s| - 1];
    if k - dot - 1 < |e| {
      assert s[k] == e[k - dot - 1];
      JpegNoSemicolon(e, k - dot - 1);
    }
  }

  lemma JpegNoSemicolon(e: string, i: nat)
    requires IsJpegExtension(e) && i < |e|
    ensures e[i] != ';'
  {
    assert Lower(e)[i] == LowerChar(e[i]);
  }

  // ---------------------------------------------------------------------------
  // update_plots_csv
  // ---------------------------------------------------------------------------

  /** Every list of new images holds names that a cell can store. */
  predicate FoundClean(found: map<string, seq<string>>) {
    forall pid :: pid in found ==> CleanNames(found[pid])
  }

  /** sorted_images: the cell's images combined with the new ones, sorted. */
  function Refreshed(cell: string, incoming: seq<string>): seq<string>
  {
    SortImages(Merged(StoredImages(cell), incoming))
  }

  /** The row after the loop body of update_plots_csv, and whether it counted
      as an update: only a plot with new images can change, and only when the
      joined list differs from the stripped cell. */
  function UpdatedPlot(row: Plot, found: map<string, seq<string>>): (r: (Plot, bool))
    ensures r.0.plotId == row.plotId
    ensures !r.1 ==> r.0 == row
    ensures r.1 ==> (row.plotId in found
      && r.0.monumentImages == Join("; ", Refreshed(row.monumentImages, found[row.plotId]))
      && r.0.monumentImages != Strip(row.monumentImages))
    ensures !r.1 && row.plotId in found ==>
      Join("; ", Refreshed(row.monumentImages, found[row.plotId])) == Strip(row.monumentImages)
  {
    if row.plotId !in found then (row, false)
    else
      var existing := Strip(row.monumentImages);
      var newValue := Join("; ", Refreshed(row.monumentImages, found[row.plotId]));
      if newValue != existing then (row.(monumentImages := newValue), true) else (row, false)
  }

  lemma LowersOfPermutation(a: seq<string>, b: seq<string>)
    requires multiset(a) == multiset(b)
    ensures Lowers(a) == Lowers(b)
  {
    forall x | x in Lowers(a) ensures x in Lowers(b) {
      var i :| 0 <= i < |a| && Lower(a[i]) == x;
      assert a[i] in multiset(b);
      var j :| 0 <= j < |b| && b[j] == a[i];
    }
    forall x | x in Lowers(b) ensures x in Lowers(a) {
      var j :| 0 <= j < |b| && Lower(b[j]) == x;
      assert b[j] in multiset(a);
      var i :| 0 <= i < |a| && a[i] == b[j];
    }
  }

  /** A refreshed list holds only clean names. */
  lemma RefreshedClean(cell: string, incoming: seq<string>)
    requires CleanNames(incoming)
    ensures CleanNames(Refreshed(cell, incoming))
  {
    var c := Merged(StoredImages(cell), incoming);
    var r := SortImages(c);
    assert CleanNames(c) by {
      forall i | 0 <= i < |c| ensures IsCleanName(c[i]) {
        if i < |StoredImages(cell)| {
          assert c[i] == c[..|StoredImages(cell)|][i];
        }
      }
    }
    forall i | 0 <= i < |r| ensures IsCleanName(r[i]) {
      assert r[i] in multiset(c);
    }
  }

  /** After the update a plot's cell lists exactly the sorted combination of
      the images it had and the new ones: existing images are preserved and the
      new ones added. */
  lemma UpdatedCellLists(row: Plot, found: map<string, seq<string>>)
    requires row.plotId in found && CleanNames(found[row.plotId])
    ensures StoredImages(UpdatedPlot(row, found).0.monumentImages) == Refreshed(row.monumentImages, found[row.plotId])
  {
    var v := Refreshed(row.monumentImages, found[row.plotId]);
    var j := Join("; ", v);
    RefreshedClean(row.monumentImages, found[row.plotId]);
    StoredImagesOfJoin(v);
    if !UpdatedPlot(row, found).1 {
      StrippedIsFixed(j);
      SameStripSameStored(row.monumentImages, j);
    }
  }

  lemma SameStripSameStored(a: string, b: string)
    requires Strip(a) == Strip(b)
    ensures StoredImages(a) == StoredImages(b)
  {
  }

  /** The refreshed list keeps every image the cell had ... */
  lemma RefreshedKeepsExisting(cell: string, incoming: seq<string>, i: nat)
    requires i < |StoredImages(cell)|
    ensures StoredImages(cell)[i] in Refreshed(cell, incoming)
  {
    var e := StoredImages(cell);
    var c := Merged(e, incoming);
    assert e[i] == c[..|e|][i];
    assert e[i] in multiset(c);
  }

  /** ... holds every new image up to case ... */
  lemma RefreshedHasIncoming(cell: string, incoming: seq<string>, i: nat)
    requires i < |incoming|
    ensures Lower(incoming[i]) in Lowers(Refreshed(cell, incoming))
  {
    LowersOfPermutation(Merged(StoredImages(cell), incoming), Refreshed(cell, incoming));
  }

  /** ... and nothing else. */
  lemma RefreshedOnlyThose(cell: string, incoming: seq<string>, i: nat)
    requires i < |Refreshed(cell, incoming)|
    ensures Refreshed(cell, incoming)[i] in StoredImages(cell) || Refreshed(cell, incoming)[i] in incoming
  {
    var e := StoredImages(cell);
    var c := Merged(e, incoming);
    var r := SortImages(c);
    SortedElement(c, i);
    var j :| 0 <= j < |c| && c[j] == r[i];
    MergedElement(e, incoming, j);
  }

  lemma SortedElement(c: seq<string>, i: nat)
    requires i < |SortImages(c)|
    ensures SortImages(c)[i] in c
  {
    assert SortImages(c)[i] in multiset(c);
  }

  lemma MergedElement(e: seq<string>, incoming: seq<string>, j: nat)
    requires j < |Merged(e, incoming)|
    ensures Merged(e, incoming)[j] in e || Merged(e, incoming)[j] in incoming
  {
    var c := Merged(e, incoming);
    if j < |e| { assert c[j] == c[..|e|][j]; }
  }

  /** Running the update again with the same images changes nothing. */
  lemma UpdateIdempotent(row: Plot, found: map<string, seq<string>>)
    requires FoundClean(found)
    ensures UpdatedPlot(UpdatedPlot(row, found).0, found) == (UpdatedPlot(row, found).0, false)
  {
    if row.plotId in found {
      var incoming := found[row.plotId];
      var row1 := UpdatedPlot(row, found).0;
      var v := Refreshed(row.monumentImages, incoming);
      UpdatedCellLists(row, found);
      RefreshedStable(row.monumentImages, incoming);
      assert Refreshed(row1.monumentImages, incoming) == v;
      StoredCell(row, found);
    }
  }

  /** Refreshing a refreshed list with the same images gives it back. */
  lemma RefreshedStable(cell: string, incoming: seq<string>)
    ensures var v := Refreshed(cell, incoming); SortImages(Merged(v, incoming)) == v
  {
    var c := Merged(StoredImages(cell), incoming);
    var v := SortImages(c);
    LowersOfPermutation(c, v);
    MergedFixpoint(v, incoming);
    SortImagesOfSorted(v);
  }

  /** After the update the stripped cell is the joined refreshed list. */
  lemma StoredCell(row: Plot, found: map<string, seq<string>>)
    requires row.plotId in found && CleanNames(found[row.plotId])
    ensures Strip(UpdatedPlot(row, found).0.monumentImages)
            == Join("; ", Refreshed(row.monumentImages, found[row.plotId]))
  {
    var v := Refreshed(row.monumentImages, found[row.plotId]);
    if UpdatedPlot(row, found).1 {
      RefreshedClean(row.monumentImages, found[row.plotId]);
      JoinStripped(v);
      StrippedIsFixed(Join("; ", v));
    }
  }

  /** The rows after update_plots_csv's loop. */
  function UpdatedRows(rows: seq<Plot>, found: map<string, seq<string>>): (r: seq<Plot>)
    ensures |r| == |rows|
  {
    seq(|rows|, i requires 0 <= i < |rows| => UpdatedPlot(rows[i], found).0)
  }

  /** updates_made for rows. */
  function CountUpdated(rows: seq<Plot>, found: map<string, seq<string>>): (n: nat)
    ensures n <= |rows|
    decreases |rows|
  {
    if rows == [] then 0
    else CountUpdated(rows[..|rows| - 1], found) + (if UpdatedPlot(rows[|rows| - 1], found).1 then 1 else 0)
  }

  lemma {:induction false} CountUpdatedZero(rows: seq<Plot>, found: map<string, seq<string>>)
    requires forall i :: 0 <= i < |rows| ==> !UpdatedPlot(rows[i], found).1
    ensures CountUpdated(rows, found) == 0
    decreases |rows|
  {
    if rows != [] {
      var init := rows[..|rows| - 1];
      assert forall i :: 0 <= i < |init| ==> init[i] == rows[i];
      CountUpdatedZero(init, found);
    }
  }

  /** A second pass over the written rows counts no update and writes the
      same rows. */
  lemma RerunChangesNothing(rows: seq<Plot>, found: map<string, seq<string>>)
    requires FoundClean(found)
    ensures CountUpdated(UpdatedRows(rows, found), found) == 0
    ensures UpdatedRows(UpdatedRows(rows, found), found) == UpdatedRows(rows, found)
  {
    var r := UpdatedRows(rows, found);
    forall i | 0 <= i < |r| ensures UpdatedPlot(r[i], found) == (r[i], false) {
      UpdateIdempotent(rows[i], found);
    }
    CountUpdatedZero(r, found);
  }

  /** The loop body of update_plots_csv for one row. */
  method UpdateRow(row: Plot, found: map<string, seq<string>>) returns (row': Plot, changed: bool)
    ensures (row', changed) == UpdatedPlot(row, found)
  {
    row', changed := row, false;
    if row.plotId in found {
      var existing := Strip(row.monumentImages);
      var existingList := CleanPieces(Split(existing, ';'));
      var combined := Combine(existingList, found[row.plotId]);
      var sortedImages := SortImages(combined);
      var newValue := Join("; ", sortedImages);
      if newValue != existing {
        row' := row.(monumentImages := newValue);
        changed := true;
      }
    }
  }

  lemma UpdatedRowsStep(rows: seq<Plot>, found: map<string, seq<string>>, i: nat)
    requires i < |rows|
    ensures UpdatedRows(rows[..i + 1], found) == UpdatedRows(rows[..i], found) + [UpdatedPlot(rows[i], found).0]
    ensures CountUpdated(rows[..i + 1], found)
      == CountUpdated(rows[..i], found) + (if UpdatedPlot(rows[i], found).1 then 1 else 0)
  {
    PrefixSnoc(rows, i);
  }

  /** update_plots_csv on the rows of an existing plots.csv: returns the new
      rows, updates_made, and the rows written back (none on a dry run). */
  method UpdatePlotsCsv(rows: seq<Plot>, found: map<string, seq<string>>, dryRun: bool)
    returns (newRows: seq<Plot>, updates: nat, written: Option<seq<Plot>>)
    ensures newRows == UpdatedRows(rows, found)
    ensures updates == CountUpdated(rows, found)
    ensures written == if dryRun then None else Some(newRows)
  {
    newRows := [];
    updates := 0;
    for i := 0 to |rows|
      invariant newRows == UpdatedRows(rows[..i], found)
      invariant updates == CountUpdated(rows[..i], found)
    {
      var row, changed := UpdateRow(rows[i], found);
      UpdatedRowsStep(rows, found, i);
      if changed {
        updates := updates + 1;
      }
      newRows := newRows + [row];
    }
    Whole(rows);
    written := if dryRun then None else Some(newRows);
  }

  /** main: scan, stop when nothing was found or plots.csv is missing, else
      update. Rows written by a real run are a fixed point of the update. */
  method UpdatePlotImages(tree: Option<Listing>, plots: Option<seq<Plot>>, dryRun: bool)
    returns (found: map<string, seq<string>>, updates: Option<nat>, written: Option<seq<Plot>>)
    ensures tree.Some? ==> forall pid :: ListAt(found, pid) == ScanHits(YardMappings, tree.value, pid)
    ensures tree.None? ==> found == map[]
    ensures updates.Some? <==> found != map[] && plots.Some?
    ensures updates.Some? ==> updates.value == CountUpdated(plots.value, found)
    ensures written.Some? <==> updates.Some? && !dryRun
    ensures written.Some? ==> written.value == UpdatedRows(plots.value, found)
    ensures written.Some? ==> CountUpdated(written.value, found) == 0
  {
    found := ScanImages(tree);
    updates, written := None, None;
    if found == map[] || plots.None? {
      return;
    }
    forall pid | pid in found ensures CleanNames(found[pid]) {
      forall i | 0 <= i < |found[pid]| ensures IsCleanName(found[pid][i]) {
        ScanHitsSound(YardMappings, tree.value, pid, i);
        var f := found[pid][i];
        var y :| 0 <= y < |YardMappings| && YardMappings[y].0 in tree.value
          && f in tree.value[YardMappings[y].0] && Accepts(f, YardMappings[y].1);
        AcceptedIsClean(f, YardMappings[y].1);
      }
    }
    var newRows, n;
    newRows, n, written := UpdatePlotsCsv(plots.value, found, dryRun);
    updates := Some(n);
    RerunChangesNothing(plots.value, found);
  }
}
