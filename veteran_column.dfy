/** scripts/add_veteran_column.py: flag every occupant whose normalized name
    matches a name variant of some veteran, in a "veteran" column of
    occupants.csv. Rows are the dicts csv.DictReader gives, as maps from
    column name to cell; a key without a cell is absent from the map. */
module VeteranColumn {
  import opened Wrappers
  import opened Text
  import opened Collections

  type Row = map<string, string>

  /** row.get(column, '') */
  function Field(row: Row, column: string): string {
    if column in row then row[column] else ""
  }

  // ---------------------------------------------------------------------------
  // normalize_name
  // ---------------------------------------------------------------------------

  /** No two neighbouring characters are both whitespace. */
  predicate NoDoubleSpace(s: string) {
    forall j :: 0 < j < |s| ==> !(IsSpace(s[j - 1]) && IsSpace(s[j]))
  }

  /** re.sub(r'\s+', ' ', s): every run of whitespace becomes one blank. */
  function Collapse(s: string): (r: string)
    ensures |r| <= |s|
    decreases |s|
  {
    if s == [] then []
    else
      var n := |s| - 1;
      var r := Collapse(s[..n]);
      if IsSpace(s[n]) then
        if 0 < n && IsSpace(s[n - 1]) then r else r + [' ']
      else r + [s[n]]
  }

  predicate NotSpace(c: char) { !IsSpace(c) }

  /** Collapsing keeps the text empty or not, ends it in whitespace exactly
      when it ended so, keeps the non-space characters in their order, turns
      every other character into a blank, and leaves no two neighbouring
      whitespace characters. */
  lemma CollapseShape(s: string)
    ensures var r := Collapse(s);
      (r == [] <==> s == [])
      && (s != [] ==> (IsSpace(r[|r| - 1]) <==> IsSpace(s[|s| - 1])))
      && (forall c :: c in r ==> c == ' ' || (c in s && !IsSpace(c)))
      && NoDoubleSpace(r)
    ensures Filter(Collapse(s), NotSpace) == Filter(s, NotSpace)
  {
    CollapseBlanks(s);
    CollapseKeepsWords(s);
  }

  /** What collapsing does to the whitespace. */
  lemma {:induction false} CollapseBlanks(s: string)
    ensures var r := Collapse(s);
      (r == [] <==> s == [])
      && (s != [] ==> (IsSpace(r[|r| - 1]) <==> IsSpace(s[|s| - 1])))
      && (forall c :: c in r ==> c == ' ' || (c in s && !IsSpace(c)))
      && NoDoubleSpace(r)
    decreases |s|
  {
    if s != [] {
      var n := |s| - 1;
      CollapseBlanks(s[..n]);
      assert forall c :: c in s[..n] ==> c in s;
    }
  }

  /** The non-space characters survive the collapse, in their order. */
  lemma {:induction false} CollapseKeepsWords(s: string)
    ensures Filter(Collapse(s), NotSpace) == Filter(s, NotSpace)
    decreases |s|
  {
    if s != [] {
      var n := |s| - 1;
      CollapseKeepsWords(s[..n]);
      var r := Collapse(s[..n]);
      if IsSpace(s[n]) {
        FilterSnoc(r, ' ', NotSpace);
      } else {
        FilterSnoc(r, s[n], NotSpace);
      }
    }
  }

  /** The characters re.sub(r'[.,\-]', '', name) deletes. */
  predicate IsPunct(c: char) { c == '.' || c == ',' || c == '-' }

  predicate NotPunct(c: char) { !IsPunct(c) }

  /** normalize_name: strip, lower-case, delete dots, commas and hyphens,
      then collapse whitespace runs. */
  function NormalizeName(name: string): string {
    Collapse(Filter(Lower(Strip(name)), NotPunct))
  }

  /** A normalized name holds none of the deleted characters, no upper-case
      letter, no whitespace but blanks, and no two neighbouring blanks. */
  lemma NormalizeShape(name: string)
    ensures var r := NormalizeName(name);
      (forall c :: c in r ==> !IsPunct(c) && !IsUpper(c) && (IsSpace(c) ==> c == ' '))
      && NoDoubleSpace(r)
  {
    var low := Lower(Strip(name));
    LowerHasNoUpper(Strip(name));
    FilterPlain(low);
    CollapsePlain(Filter(low, NotPunct));
  }

  lemma LowerHasNoUpper(s: string)
    ensures forall c :: c in Lower(s) ==> !IsUpper(c)
  {
  }

  lemma FilterPlain(low: string)
    requires forall c :: c in low ==> !IsUpper(c)
    ensures forall c :: c in Filter(low, NotPunct) ==> !IsPunct(c) && !IsUpper(c)
  {
    var kept := Filter(low, NotPunct);
    assert forall c :: c in kept ==> c in low && NotPunct(c);
  }

  /** Collapsing text without punctuation or capitals keeps it so, and only
      blanks remain as whitespace. */
  lemma CollapsePlain(s: string)
    requires forall c :: c in s ==> !IsPunct(c) && !IsUpper(c)
    ensures var r := Collapse(s);
      (forall c :: c in r ==> !IsPunct(c) && !IsUpper(c) && (IsSpace(c) ==> c == ' '))
      && NoDoubleSpace(r)
  {
    CollapseShape(s);
  }

  // ---------------------------------------------------------------------------
  // parse_veteran_name
  // ---------------------------------------------------------------------------

  /** f"{a} {b} {c}" */
  function Spaced3(a: string, b: string, c: string): string { a + " " + b + " " + c }

  /** parse_veteran_name: the name with and without the middle name, and, when
      the suffix is not empty, both again with the suffix. */
  function ParseVeteranName(row: Row): (variants: seq<string>)
    ensures |variants| == if Strip(Field(row, "Suffix")) == "" then 2 else 4
  {
    var first := Strip(Field(row, "First Name"));
    var middle := Strip(Field(row, "Middle Name/Initial"));
    var last := Strip(Field(row, "Last Name"));
    var suffix := Strip(Field(row, "Suffix"));
    var fullName := Collapse(Strip(Spaced3(first, middle, last)));
    var nameNoMiddle := Strip(first + " " + last);
    var variants := [NormalizeName(fullName), NormalizeName(nameNoMiddle)];
    if suffix != "" then
      var fullNameWithSuffix := Collapse(Strip(Spaced3(first, middle, last) + " " + suffix));
      var nameNoMiddleWithSuffix := Strip(Spaced3(first, last, suffix));
      SuffixedNotEmpty(Spaced3(first, middle, last) + " ", suffix);
      CollapseShape(Strip(Spaced3(first, middle, last) + " " + suffix));
      variants + [NormalizeName(fullNameWithSuffix), NormalizeName(nameNoMiddleWithSuffix)]
    else variants
  }

  /** A text ending in a non-empty stripped suffix is not blank, so the
      variant with the suffix is truthy whenever the suffix is. */
  lemma SuffixedNotEmpty(front: string, suffix: string)
    requires suffix != [] && IsStripped(suffix)
    ensures Strip(front + suffix) != []
  {
    var x := front + suffix;
    assert x[|front|] == suffix[0];
  }

  // ---------------------------------------------------------------------------
  // The veterans table
  // ---------------------------------------------------------------------------

  /** {'branch': branch, 'service': service} */
  datatype Service = Service(branch: string, service: string)

  function ServiceOf(row: Row): Service {
    Service(Strip(Field(row, "Branch")), Strip(Field(row, "Service Period")))
  }

  /** What one veterans.csv row contributes: its variants and its service. */
  datatype Entry = Entry(variants: seq<string>, info: Service)

  function EntryOf(row: Row): Entry {
    Entry(ParseVeteranName(row), ServiceOf(row))
  }

  /** for variant in vs: m[variant] = info */
  function Store(m: map<string, Service>, vs: seq<string>, info: Service): (r: map<string, Service>)
    ensures forall k :: k in r <==> k in m || k in vs
    ensures forall k :: k in r ==> r[k] == if k in vs then info else m[k]
    decreases |vs|
  {
    if vs == [] then m
    else
      var n := |vs| - 1;
      assert forall v :: v in vs <==> v in vs[..n] || v == vs[n];
      Store(m, vs[..n], info)[vs[n] := info]
  }

  /** The table after the given rows, each storing all its variants. */
  function Table(es: seq<Entry>): map<string, Service>
    decreases |es|
  {
    if es == [] then map[]
    else
      var n := |es| - 1;
      Store(Table(es[..n]), es[n].variants, es[n].info)
  }

  /** A name is in the table exactly when some row has it among its
      variants. */
  lemma {:induction false} TableHas(es: seq<Entry>, k: string)
    ensures k in Table(es) <==> exists i :: 0 <= i < |es| && k in es[i].variants
    decreases |es|
  {
    if es != [] {
      var n := |es| - 1;
      TableHas(es[..n], k);
      assert forall i :: 0 <= i < n ==> es[..n][i] == es[i];
    }
  }

  /** Row i is the last row that has k among its variants. */
  ghost predicate LastWith(es: seq<Entry>, k: string, i: int) {
    0 <= i < |es| && k in es[i].variants && forall j :: i < j < |es| ==> k !in es[j].variants
  }

  /** A name in the table maps to the service of the last row that has it:
      a later veteran overwrites an earlier one. */
  lemma {:induction false} TableLastWins(es: seq<Entry>, k: string)
    requires k in Table(es)
    ensures exists i :: LastWith(es, k, i) && Table(es)[k] == es[i].info
    decreases |es|
  {
    assert es != [];
    var n := |es| - 1;
    var init := es[..n];
    if k in es[n].variants {
      assert LastWith(es, k, n);
    } else {
      TableLastWins(init, k);
      var i :| LastWith(init, k, i) && Table(init)[k] == init[i].info;
      assert LastWith(es, k, i) by {
        assert forall j :: i < j < n ==> es[j] == init[j];
      }
    }
  }

  lemma StoreStep(m: map<string, Service>, vs: seq<string>, info: Service, j: nat)
    requires j < |vs|
    ensures Store(m, vs[..j + 1], info) == Store(m, vs[..j], info)[vs[j] := info]
  {
    PrefixSnoc(vs, j);
  }

  /** The inner loop of main: every variant of one row is stored. */
  method StoreVariants(veterans: map<string, Service>, nameVariants: seq<string>, info: Service)
    returns (r: map<string, Service>)
    ensures r == Store(veterans, nameVariants, info)
  {
    r := veterans;
    for j := 0 to |nameVariants|
      invariant r == Store(veterans, nameVariants[..j], info)
    {
      StoreStep(veterans, nameVariants, info, j);
      r := r[nameVariants[j] := info];
    }
    Whole(nameVariants);
  }

  /** The first loop of main: the variants of each veterans.csv row are
      stored in turn. */
  method LoadVeterans(vetRows: seq<Row>) returns (veterans: map<string, Service>)
    ensures veterans == Table(Map(vetRows, EntryOf))
  {
    ghost var es := Map(vetRows, EntryOf);
    veterans := map[];
    for i := 0 to |vetRows|
      invariant veterans == Table(es[..i])
    {
      MapAt(vetRows, EntryOf, i);
      PrefixSnoc(es, i);
      var nameVariants := ParseVeteranName(vetRows[i]);
      var info := ServiceOf(vetRows[i]);
      veterans := StoreVariants(veterans, nameVariants, info);
    }
    Whole(es);
  }

  // ---------------------------------------------------------------------------
  // The veteran column
  // ---------------------------------------------------------------------------

  const VeteranColumn := "veteran"
  const StatusColumn := "status"

  /** The header written back: unchanged when it has a veteran column, else
      with one inserted right after the first status column; a Fail where
      fieldnames.index('status') raises ValueError. */
  function NewFieldnames(fieldnames: seq<string>): Result<seq<string>> {
    if VeteranColumn in fieldnames then Ok(fieldnames)
    else
      match IndexOf(fieldnames, StatusColumn)
      case None => Fail("ValueError: 'status' is not in list")
      case Some(k) => Ok(InsertAt(fieldnames, k + 1, VeteranColumn))
  }

  /** Only a header with neither column fails; a header without the column
      gains it exactly once, right after its first status column, with every
      other name kept in order; a header that has it is kept. */
  lemma NewFieldnamesMeaning(fieldnames: seq<string>)
    ensures NewFieldnames(fieldnames).Fail? <==> VeteranColumn !in fieldnames && StatusColumn !in fieldnames
    ensures VeteranColumn in fieldnames ==> NewFieldnames(fieldnames) == Ok(fieldnames)
    ensures VeteranColumn !in fieldnames && StatusColumn in fieldnames ==>
      var k := IndexOf(fieldnames, StatusColumn).value;
      var n := NewFieldnames(fieldnames).value;
      n[k] == StatusColumn && StatusColumn !in n[..k] && n[k + 1] == VeteranColumn
      && n[..k + 1] == fieldnames[..k + 1] && n[k + 2..] == fieldnames[k + 1..]
      && multiset(n)[VeteranColumn] == 1
  {
    if VeteranColumn !in fieldnames && StatusColumn in fieldnames {
      var k := IndexOf(fieldnames, StatusColumn).value;
      var n := InsertAt(fieldnames, k + 1, VeteranColumn);
      assert n[..k + 1][k] == n[k];
      assert n[..k] == n[..k + 1][..k];
      assert multiset(fieldnames)[VeteranColumn] == 0;
    }
  }

  /** The name an occupant is looked up by. */
  function Key(occ: Row): string {
    NormalizeName(Strip(Field(occ, "name")))
  }

  /** One occupant after the loop body: its veteran cell overwritten. */
  function Flagged(occ: Row, isVeteran: bool): Row {
    occ[VeteranColumn := if isVeteran then "Yes" else ""]
  }

  /** The occupants after the loop, given the key of each. */
  function FlaggedBy(occupants: seq<Row>, keys: seq<string>, veterans: map<string, Service>): (r: seq<Row>)
    requires |keys| == |occupants|
    ensures |r| == |occupants|
    decreases |occupants|
  {
    if occupants == [] then []
    else
      var n := |occupants| - 1;
      FlaggedBy(occupants[..n], keys[..n], veterans) + [Flagged(occupants[n], keys[n] in veterans)]
  }

  function FlaggedAll(occupants: seq<Row>, veterans: map<string, Service>): seq<Row> {
    FlaggedBy(occupants, Map(occupants, Key), veterans)
  }

  lemma {:induction false} FlaggedAt(occupants: seq<Row>, keys: seq<string>, veterans: map<string, Service>, i: nat)
    requires |keys| == |occupants| && i < |occupants|
    ensures FlaggedBy(occupants, keys, veterans)[i] == Flagged(occupants[i], keys[i] in veterans)
    decreases |occupants|
  {
    var n := |occupants| - 1;
    if i < n {
      FlaggedAt(occupants[..n], keys[..n], veterans, i);
    }
  }

  /** The number of keys in the table. */
  function MatchCount(keys: seq<string>, veterans: map<string, Service>): nat
    decreases |keys|
  {
    if keys == [] then 0
    else
      var n := |keys| - 1;
      MatchCount(keys[..n], veterans) + (if keys[n] in veterans then 1 else 0)
  }

  /** The number of occupants whose key is in the table. */
  function Matches(occupants: seq<Row>, veterans: map<string, Service>): nat {
    MatchCount(Map(occupants, Key), veterans)
  }

  /** The number of rows whose veteran cell is "Yes". */
  function CountYes(rows: seq<Row>): nat
    decreases |rows|
  {
    if rows == [] then 0
    else
      var n := |rows| - 1;
      CountYes(rows[..n]) + (if Field(rows[n], VeteranColumn) == "Yes" then 1 else 0)
  }

  /** matches counts exactly the rows marked "Yes". */
  lemma {:induction false} MatchesAreYes(occupants: seq<Row>, keys: seq<string>, veterans: map<string, Service>)
    requires |keys| == |occupants|
    ensures MatchCount(keys, veterans) == CountYes(FlaggedBy(occupants, keys, veterans))
    decreases |occupants|
  {
    if occupants != [] {
      var n := |occupants| - 1;
      MatchesAreYes(occupants[..n], keys[..n], veterans);
      var r := FlaggedBy(occupants, keys, veterans);
      assert r[..n] == FlaggedBy(occupants[..n], keys[..n], veterans);
    }
  }

  /** row is occ with the veteran cell "Yes" exactly when isVeteran, else
      empty, and every other cell kept. */
  ghost predicate FlaggedRow(occ: Row, row: Row, isVeteran: bool) {
    row.Keys == occ.Keys + {VeteranColumn}
    && (row[VeteranColumn] == "Yes" <==> isVeteran)
    && (row[VeteranColumn] == "Yes" || row[VeteranColumn] == "")
    && forall c :: c in occ && c != VeteranColumn ==> row[c] == occ[c]
  }

  lemma FlaggedIs(occ: Row, isVeteran: bool)
    ensures FlaggedRow(occ, Flagged(occ, isVeteran), isVeteran)
  {
  }

  /** Each written row is its occupant with the veteran cell set: "Yes" when
      its normalized name is in the table, else empty, every other cell kept;
      and matches counts exactly the "Yes" rows. */
  lemma FlaggedMeaning(occupants: seq<Row>, veterans: map<string, Service>)
    ensures |FlaggedAll(occupants, veterans)| == |occupants|
    ensures forall i :: 0 <= i < |occupants| ==>
      FlaggedRow(occupants[i], FlaggedAll(occupants, veterans)[i], Key(occupants[i]) in veterans)
    ensures Matches(occupants, veterans) == CountYes(FlaggedAll(occupants, veterans))
  {
    var keys := Map(occupants, Key);
    forall i | 0 <= i < |occupants|
      ensures FlaggedAll(occupants, veterans)[i] == Flagged(occupants[i], Key(occupants[i]) in veterans)
      ensures FlaggedRow(occupants[i], FlaggedAll(occupants, veterans)[i], Key(occupants[i]) in veterans)
    {
      FlaggedAt(occupants, keys, veterans, i);
      MapAt(occupants, Key, i);
      FlaggedIs(occupants[i], Key(occupants[i]) in veterans);
    }
    MatchesAreYes(occupants, keys, veterans);
  }

  lemma MatchStep(keys: seq<string>, veterans: map<string, Service>, i: nat)
    requires i < |keys|
    ensures MatchCount(keys[..i + 1], veterans) == MatchCount(keys[..i], veterans) + (if keys[i] in veterans then 1 else 0)
  {
    PrefixSnoc(keys, i);
  }

  /** The lookup in the loop body, for occupant i. */
  method LookUp(occupants: seq<Row>, i: nat, veterans: map<string, Service>) returns (isVeteran: bool)
    requires i < |occupants|
    ensures isVeteran == (Map(occupants, Key)[i] in veterans)
  {
    MapAt(occupants, Key, i);
    var name := Strip(Field(occupants[i], "name"));
    var normalizedName := NormalizeName(name);
    isVeteran := normalizedName in veterans;
  }

  /** The second loop of main: every occupant's veteran cell is overwritten
      in place and the matches are counted. */
  method FlagOccupants(occupants: seq<Row>, veterans: map<string, Service>) returns (rows: seq<Row>, matches: nat)
    ensures rows == FlaggedAll(occupants, veterans)
    ensures matches == Matches(occupants, veterans)
  {
    ghost var keys := Map(occupants, Key);
    ghost var target := FlaggedAll(occupants, veterans);
    rows, matches := occupants, 0;
    for i := 0 to |occupants|
      invariant |rows| == |occupants|
      invariant AgreeBelow(rows, target, i) && AgreeFrom(rows, occupants, i)
      invariant matches == MatchCount(keys[..i], veterans)
    {
      FlaggedAt(occupants, keys, veterans, i);
      MatchStep(keys, veterans, i);
      var occ := rows[i];
      var isVeteran := LookUp(occupants, i, veterans);
      if isVeteran {
        Advance(rows, target, occupants, i, occ[VeteranColumn := "Yes"]);
        rows := rows[i := occ[VeteranColumn := "Yes"]];
        matches := matches + 1;
      } else {
        Advance(rows, target, occupants, i, occ[VeteranColumn := ""]);
        rows := rows[i := occ[VeteranColumn := ""]];
      }
    }
    Whole(keys);
    SameElements(rows, target);
  }

  /** What main writes: the header, the rows, and the count it reports. */
  datatype Outcome = Outcome(fieldnames: seq<string>, rows: seq<Row>, matches: nat)

  /** main, from the rows of veterans.csv and the header and rows of
      occupants.csv. */
  method AddVeteranColumn(vetRows: seq<Row>, fieldnames: seq<string>, occupants: seq<Row>) returns (r: Result<Outcome>)
    ensures r.Fail? <==> NewFieldnames(fieldnames).Fail?
    ensures r.Ok? ==> var veterans := Table(Map(vetRows, EntryOf));
      r.value == Outcome(NewFieldnames(fieldnames).value, FlaggedAll(occupants, veterans), Matches(occupants, veterans))
  {
    var veterans := LoadVeterans(vetRows);
    var newFieldnames := fieldnames;
    if VeteranColumn !in fieldnames {
      var statusIndex := IndexOf(fieldnames, StatusColumn);
      if statusIndex.None? {
        return Fail("ValueError: 'status' is not in list");
      }
      newFieldnames := InsertAt(fieldnames, statusIndex.value + 1, VeteranColumn);
    }
    var rows, matches := FlagOccupants(occupants, veterans);
    r := Ok(Outcome(newFieldnames, rows, matches));
  }
}
