/** scripts/fix_veteran_suffixes.py: move a generational suffix or title out
    of the "Middle Name/Initial" column of veterans.csv into a new "Suffix"
    column. Rows are the dicts csv.DictReader gives, as maps from column name
    to cell; a key without a cell is absent from the map. */
module VeteranSuffixes {
  import opened Wrappers
  import opened Text
  import opened Collections

  // ---------------------------------------------------------------------------
  // parse_middle_and_suffix
  // ---------------------------------------------------------------------------

  /** The words the first pattern accepts, in lower case:
      Jr\.?|Sr\.?|II|III|IV|M\.?D\.?|Ph\.?D\.?|Capt\.?|Dr\.? */
  const SuffixForms: set<string> :=
    {"jr", "jr.", "sr", "sr.", "ii", "iii", "iv",
     "md", "m.d", "md.", "m.d.", "phd", "ph.d", "phd.", "ph.d.",
     "capt", "capt.", "dr", "dr."}

  /** The words the second pattern accepts as a whole field: Jr\.?|Sr\.?|II|III|IV */
  const LoneForms: set<string> := {"jr", "jr.", "sr", "sr.", "ii", "iii", "iv"}

  /** The patterns are matched with re.IGNORECASE. */
  predicate IsSuffix(t: string) { Lower(t) in SuffixForms }

  predicate IsLoneSuffix(t: string) { Lower(t) in LoneForms }

  predicate NoSpace(s: string) { forall j :: 0 <= j < |s| ==> !IsSpace(s[j]) }

  /** Where the last run of non-whitespace characters of s begins. */
  function WordStart(s: string): (i: nat)
    ensures i <= |s|
    ensures NoSpace(s[i..])
    ensures 0 < i ==> IsSpace(s[i - 1])
    decreases |s|
  {
    if s == [] || IsSpace(s[|s| - 1]) then |s|
    else
      var n := |s| - 1;
      var i := WordStart(s[..n]);
      assert s[i..] == s[..n][i..] + [s[n]];
      i
  }

  /** parse_middle_and_suffix(middle_field) as (middle, suffix). Once the
      field is stripped, the first pattern matches exactly when the last word
      is a suffix and some whitespace comes before it: the match starts where
      that whitespace does, so what re.sub leaves, stripped, is the text
      before the last word, stripped. */
  function ParseMiddleAndSuffix(field: string): (string, string) {
    if AllSpaces(field) then ("", "")
    else
      var m := Strip(field);
      var i := WordStart(m);
      if 0 < i && IsSuffix(m[i..]) then (Strip(m[..i]), m[i..])
      else if IsLoneSuffix(m) then ("", m)
      else (m, "")
  }

  /** A suffix word contains letters and dots only, so no whitespace. */
  lemma SuffixHasNoSpace(t: string)
    requires IsSuffix(t) || IsLoneSuffix(t)
    ensures NoSpace(t)
  {
    assert forall w :: w in SuffixForms ==> forall c :: c in w ==> IsLower(c) || c == '.';
    assert LoneForms <= SuffixForms;
    forall j | 0 <= j < |t| ensures !IsSpace(t[j]) {
      assert Lower(t)[j] in Lower(t);
    }
  }

  lemma {:induction false} WordStartOfWord(s: string, k: nat)
    requires k <= |s| && NoSpace(s[k..]) && (0 < k ==> IsSpace(s[k - 1]))
    ensures WordStart(s) == k
    decreases |s|
  {
    if k < |s| {
      var n := |s| - 1;
      assert s[n] == s[k..][n - k];
      assert s[..n][k..] == s[k..][..n - k];
      WordStartOfWord(s[..n], k);
    }
  }

  lemma {:induction false} StripEndOfPadded(x: string, pad: string)
    requires x != [] && !IsSpace(x[|x| - 1]) && AllSpaces(pad)
    ensures StripEnd(x + pad) == x
    decreases |pad|
  {
    if pad == [] {
      assert x + pad == x;
    } else {
      var n := |pad| - 1;
      assert (x + pad)[..|x + pad| - 1] == x + pad[..n];
      StripEndOfPadded(x, pad[..n]);
    }
  }

  /** Text that starts with a non-space character, stripped, is itself up to
      its trailing whitespace. */
  lemma StripOfLeading(x: string)
    requires x != [] && !IsSpace(x[0])
    ensures Strip(x) != [] && exists pad :: AllSpaces(pad) && x == Strip(x) + pad
  {
    var r := StripEnd(x);
    assert Strip(x) == r;
    assert x == r + x[|r|..];
  }

  lemma LoneIsSuffix(t: string)
    requires IsLoneSuffix(t)
    ensures IsSuffix(t)
  {
    assert LoneForms <= SuffixForms;
  }

  /** Cutting a stripped text before a word that follows whitespace leaves a
      non-empty middle, the whitespace and the word. */
  lemma CutBeforeWord(m: string, i: nat)
    requires m != [] && !IsSpace(m[0]) && 0 < i <= |m| && IsSpace(m[i - 1])
    ensures Strip(m[..i]) != []
    ensures exists gap :: gap != [] && AllSpaces(gap) && m == Strip(m[..i]) + gap + m[i..]
  {
    var x := m[..i];
    StripOfLeading(x);
    var pad :| AllSpaces(pad) && x == Strip(x) + pad;
    assert pad != [] by {
      assert x[i - 1] == m[i - 1];
    }
    assert m == x + m[i..];
  }

  /** What the result is, case by case: a blank field gives two empty
      strings; without a suffix the middle is the stripped field; a suffix is
      always a suffix word at the end of the stripped field, and it is either
      the whole field (then one of Jr, Sr, II, III, IV) or separated by
      whitespace from a non-empty middle. */
  lemma ParseMeaning(field: string)
    ensures var (middle, suffix) := ParseMiddleAndSuffix(field);
      (AllSpaces(field) ==> middle == "" && suffix == "")
      && (suffix == "" ==> middle == Strip(field))
      && (suffix != "" ==> IsSuffix(suffix) && NoSpace(suffix))
      && (suffix != "" && middle == "" ==> IsLoneSuffix(suffix) && Strip(field) == suffix)
      && (suffix != "" && middle != "" ==>
            exists gap :: gap != [] && AllSpaces(gap) && Strip(field) == middle + gap + suffix)
  {
    if !AllSpaces(field) {
      var m := Strip(field);
      var i := WordStart(m);
      if 0 < i && IsSuffix(m[i..]) {
        CutBeforeWord(m, i);
      } else if IsLoneSuffix(m) {
        LoneIsSuffix(m);
        SuffixHasNoSpace(m);
      }
    }
  }

  /** The converse: a stripped field made of a middle, whitespace and a
      suffix word splits into that middle and that word. */
  lemma SuffixAfterSpace(field: string, middle: string, gap: string, suffix: string)
    requires Strip(field) == middle + gap + suffix
    requires middle != [] && IsStripped(middle)
    requires gap != [] && AllSpaces(gap)
    requires IsSuffix(suffix)
    ensures ParseMiddleAndSuffix(field) == (middle, suffix)
  {
    var m := Strip(field);
    var k := |middle| + |gap|;
    assert m[0] == middle[0];
    SuffixHasNoSpace(suffix);
    assert m[..k] == middle + gap && m[k..] == suffix;
    assert m[k - 1] == gap[|gap| - 1];
    WordStartOfWord(m, k);
    StripEndOfPadded(middle, gap);
  }

  /** A field that is only Jr, Sr, II, III or IV (any case, dots optional)
      becomes the suffix, with an empty middle. */
  lemma LoneSuffixMoves(field: string)
    requires IsLoneSuffix(Strip(field))
    ensures ParseMiddleAndSuffix(field) == ("", Strip(field))
  {
    SingleWord(field);
  }

  /** A field that is only MD, PhD, Capt or Dr is no suffix: the field is
      kept, stripped. */
  lemma LoneTitleStays(field: string)
    requires IsSuffix(Strip(field)) && !IsLoneSuffix(Strip(field))
    ensures ParseMiddleAndSuffix(field) == (Strip(field), "")
  {
    SingleWord(field);
  }

  /** A field that is one suffix word and nothing else has no whitespace
      before its last word, so only the test of the whole field decides. */
  lemma SingleWord(field: string)
    requires IsSuffix(Strip(field)) || IsLoneSuffix(Strip(field))
    ensures ParseMiddleAndSuffix(field) == if IsLoneSuffix(Strip(field)) then ("", Strip(field)) else (Strip(field), "")
  {
    var m := Strip(field);
    SuffixHasNoSpace(m);
    WordStartOfWord(m, 0);
  }

  // ---------------------------------------------------------------------------
  // main: the new column and the rewritten rows
  // ---------------------------------------------------------------------------

  type Row = map<string, string>

  const MiddleColumn := "Middle Name/Initial"
  const SuffixColumn := "Suffix"

  /** row.get(column, '') */
  function Field(row: Row, column: string): string {
    if column in row then row[column] else ""
  }

  /** One record after the loop body: both columns overwritten. */
  function Rewritten(row: Row): Row {
    var (middle, suffix) := ParseMiddleAndSuffix(Field(row, MiddleColumn));
    row[MiddleColumn := middle][SuffixColumn := suffix]
  }

  /** The two columns hold the parsed middle and suffix, whatever they held
      before; every other column keeps its cell and no other key appears. */
  lemma RewrittenFields(row: Row)
    ensures var (middle, suffix) := ParseMiddleAndSuffix(Field(row, MiddleColumn));
      Rewritten(row)[MiddleColumn] == middle && Rewritten(row)[SuffixColumn] == suffix
      && Rewritten(row).Keys == row.Keys + {MiddleColumn, SuffixColumn}
      && forall c :: c in row && c != MiddleColumn && c != SuffixColumn ==> Rewritten(row)[c] == row[c]
  {
  }

  /** One entry of the changes list. */
  datatype Change = Change(name: string, originalMiddle: string, newMiddle: string, suffix: string)

  /** The entry a row adds to the changes list, if its suffix is not empty. */
  function ChangeOf(row: Row): seq<Change> {
    var original := Field(row, MiddleColumn);
    var (middle, suffix) := ParseMiddleAndSuffix(original);
    if suffix == "" then []
    else
      var name := Strip(Field(row, "First Name") + " " + original + " " + Field(row, "Last Name"));
      [Change(name, original, middle, suffix)]
  }

  function Changes(rows: seq<Row>): seq<Change> {
    FlatMap(rows, ChangeOf)
  }

  /** What main writes and reports. */
  datatype Outcome = Outcome(fieldnames: seq<string>, rows: seq<Row>, changes: seq<Change>)

  /** The loop of main over the records, rewriting each in place. */
  method RewriteRows(veterans: seq<Row>) returns (rows: seq<Row>, changes: seq<Change>)
    ensures rows == Map(veterans, Rewritten)
    ensures changes == Changes(veterans)
  {
    ghost var target := Map(veterans, Rewritten);
    rows, changes := veterans, [];
    for i := 0 to |veterans|
      invariant |rows| == |veterans|
      invariant AgreeBelow(rows, target, i) && AgreeFrom(rows, veterans, i)
      invariant changes == FlatMap(veterans[..i], ChangeOf)
    {
      FlatMapSnoc(veterans, ChangeOf, i);
      MapAt(veterans, Rewritten, i);
      var vet := rows[i];
      var middleField := Field(vet, MiddleColumn);
      var (middleClean, suffix) := ParseMiddleAndSuffix(middleField);
      Advance(rows, target, veterans, i, vet[MiddleColumn := middleClean][SuffixColumn := suffix]);
      rows := rows[i := vet[MiddleColumn := middleClean][SuffixColumn := suffix]];
      if suffix != "" {
        var name := Strip(Field(vet, "First Name") + " " + middleField + " " + Field(vet, "Last Name"));
        changes := changes + [Change(name, middleField, middleClean, suffix)];
      }
    }
    Whole(veterans);
    SameElements(rows, target);
  }

  /** main, from the header row and the records read: Fail where
      fieldnames.index raises ValueError. */
  method FixVeteranSuffixes(fieldnames: seq<string>, veterans: seq<Row>) returns (r: Result<Outcome>)
    ensures r.Fail? <==> MiddleColumn !in fieldnames
    ensures r.Ok? ==> var k := IndexOf(fieldnames, MiddleColumn).value;
      r.value.fieldnames == InsertAt(fieldnames, k + 1, SuffixColumn)
      && r.value.rows == Map(veterans, Rewritten) && r.value.changes == Changes(veterans)
  {
    var middleIndex := IndexOf(fieldnames, MiddleColumn);
    if middleIndex.None? {
      return Fail("ValueError: 'Middle Name/Initial' is not in list");
    }
    var k := middleIndex.value;
    var newFieldnames := fieldnames[..k + 1] + [SuffixColumn] + fieldnames[k + 1..];
    var rows, changes := RewriteRows(veterans);
    r := Ok(Outcome(newFieldnames, rows, changes));
  }

  /** The new header is the old one with "Suffix" right after the first
      "Middle Name/Initial"; an existing "Suffix" column is kept, so the
      header then names it twice. */
  lemma NewFieldnames(fieldnames: seq<string>)
    requires MiddleColumn in fieldnames
    ensures var k := IndexOf(fieldnames, MiddleColumn).value;
      var n := InsertAt(fieldnames, k + 1, SuffixColumn);
      n[k] == MiddleColumn && n[k + 1] == SuffixColumn && MiddleColumn !in n[..k]
      && n[..k + 1] == fieldnames[..k + 1] && n[k + 2..] == fieldnames[k + 1..]
      && multiset(n)[SuffixColumn] == multiset(fieldnames)[SuffixColumn] + 1
  {
    var k := IndexOf(fieldnames, MiddleColumn).value;
    var n := InsertAt(fieldnames, k + 1, SuffixColumn);
    assert n[..k + 1][k] == n[k];
    assert n[..k] == n[..k + 1][..k];
  }

  /** Every record is written, in order, with both columns overwritten, and a
      change is listed for exactly the records whose suffix is not empty. */
  lemma RowsAndChanges(veterans: seq<Row>, c: Change)
    ensures |Map(veterans, Rewritten)| == |veterans|
    ensures forall i :: 0 <= i < |veterans| ==> Map(veterans, Rewritten)[i] == Rewritten(veterans[i])
    ensures c in Changes(veterans) <==>
      exists i :: 0 <= i < |veterans| && c in ChangeOf(veterans[i])
  {
    forall i | 0 <= i < |veterans| ensures Map(veterans, Rewritten)[i] == Rewritten(veterans[i]) {
      MapAt(veterans, Rewritten, i);
    }
    FlatMapIff(veterans, ChangeOf, c);
  }

  /** A listed change records the cell as read and the two parts it was
      split into, and its suffix is never empty. */
  lemma ChangeMeaning(row: Row, c: Change)
    requires c in ChangeOf(row)
    ensures c.originalMiddle == Field(row, MiddleColumn)
    ensures (c.newMiddle, c.suffix) == ParseMiddleAndSuffix(c.originalMiddle)
    ensures c.suffix != "" && c.newMiddle == Rewritten(row)[MiddleColumn] && c.suffix == Rewritten(row)[SuffixColumn]
  {
  }
}
