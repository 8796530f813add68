/** scripts/update_cremation_vault_status.py: occupants whose normalized name is
    on the Cremation or the Vault list get that status; the names of either list
    that match no occupant are reported. The two lists are parameters of the
    run; the script's own lists are the constants below. */
module CremationVault {
  import opened Wrappers
  import opened Text
  import opened Collections
  import opened Records

  /** CREMATIONS */
  const Cremations: seq<string> := [
    "Bruce Linscott Allen", "Dorothy Atwood", "Marion P. Atwood", "Theodore P. Atwood",
    "Herbert A. Bailey", "Patricia A. Bailey", "Loretta M. Baker", "Armand L. Bernier",
    "Robert S. Black", "Jonathan (Jot) Bond", "Thomas H. Conway", "Eunice A. Curran",
    "Nancy A. Curran", "Phillip E. Curran", "Leo M. R. David", "Benjamin S. Edwards",
    "Harold (Bud) Edwards", "Abbot Fletcher", "Corinne E. Fletcher", "Eileen Fletcher",
    "Alice B. Forgit", "Raymond W. Forgit", "Norman L. Gay", "A. Milton George",
    "Judith M. Gerber", "Charles W. Gilliam Jr.", "Dewey L. Gilliam", "Iva G. Gilliam",
    "Sonia J. Gilliam", "Cynthia Paul Howard", "Richard A. Howard", "Ethel L. Ivey",
    "Arlene L. Johnson", "Arthur H. Johnson", "Frances L. Johnson", "Hugh E. Johnson",
    "Pemberton Everett Johnson", "Craig T. Lachapell", "Jeffery W. Lachapell",
    "Jerry Leeman", "Faith S. Linscott", "Leo G. Mercier", "Elaine I. Mercier",
    "Constance L. Sylvester Merrill", "Juliette Oddo", "David John Olson", "Ralph T. Perry",
    "Charles L. Raymond", "Lawrence E. Roche", "Jeanette Winchell Short",
    "Rosemary Carpenter Shove Shiras", "Linda Jean Smeal", "Lawrence W. Spellman",
    "Sandra Stewart", "Gerald B. Stilphen", "Harvey A. Stilphen", "Madelyn F. Stilphen",
    "Madelyn R. Stilphen", "Margaret Gordon Sumner", "Philip Edward Sumner",
    "Charles Henry Swan Jr.", "William G. E. Sweetman III", "Augustus Sylvester",
    "Janet Louise Puffer Sylvester", "Alice M. Thibault", "Lucien A. Thibault",
    "Donna L. Warner", "Diane Wheatley"
  ]

  /** VAULTS */
  const Vaults: seq<string> := [
    "John Jack Anderson", "Elizabeth Johnson Bragdon", "Peter Jon Fides",
    "Debra Lyn Fuller", "Robert H. Fuller", "Barbara Gregoire Holman",
    "William R. Hudson", "Caroline L. Johnson", "Hugh E. Johnson",
    "Jeanette Pearl Johnson", "Libby Judkins", "Mary L. Libby", "Myron K Krueger",
    "Durward W. Lewis", "George E. Morgan", "Maxine Linscott Nelson",
    "Gladys M. Placey", "Beverly Ann Stilphen", "Robert Weatherill Winchell",
    "Ruth Edna Wilson"
  ]

  // ---------------------------------------------------------------------------
  // normalize_name
  // ---------------------------------------------------------------------------

  /** normalize_name: strip; delete every ',' and every '.'; replace each
      non-overlapping double space, left to right, by one space; lower-case. */
  function NormalizeName(name: string): string {
    Lower(ReplaceAll(ReplaceAll(ReplaceAll(Strip(name), ",", ""), ".", ""), "  ", " "))
  }

  /** Every character of a replacement comes from the text or the replacement. */
  lemma {:induction false} ReplaceKeeps(s: string, pat: string, rep: string, c: char)
    requires pat != []
    ensures c in ReplaceAll(s, pat, rep) ==> c in s || c in rep
    decreases |s|
  {
    if |s| >= |pat| {
      if s[..|pat|] == pat {
        ReplaceKeeps(s[|pat|..], pat, rep, c);
        assert forall x :: x in s[|pat|..] ==> x in s;
      } else {
        ReplaceKeeps(s[1..], pat, rep, c);
        assert forall x :: x in s[1..] ==> x in s;
      }
    }
  }

  /** A normalized name holds no comma, no full stop and no upper-case letter. */
  lemma NormalizedPlain(name: string)
    ensures var r := NormalizeName(name);
      ',' !in r && '.' !in r && forall i :: 0 <= i < |r| ==> !IsUpper(r[i])
  {
    var a := ReplaceAll(Strip(name), ",", "");
    var b := ReplaceAll(a, ".", "");
    var c := ReplaceAll(b, "  ", " ");
    ReplaceCharByNothing(Strip(name), ',');
    ReplaceCharByNothing(a, '.');
    ReplaceKeeps(b, "  ", " ", ',');
    ReplaceKeeps(b, "  ", " ", '.');
    assert ',' !in c && '.' !in c;
    var r := Lower(c);
    forall i | 0 <= i < |r| ensures r[i] != ',' && r[i] != '.' && !IsUpper(r[i]) {
      assert r[i] == LowerChar(c[i]);
      assert c[i] in c;
    }
  }

  /** The whitespace around a name plays no part. */
  lemma NormalizeStripped(name: string)
    ensures NormalizeName(Strip(name)) == NormalizeName(name)
  {
    StrippedIsFixed(Strip(name));
  }

  /** Only non-overlapping pairs are replaced, so three spaces between two
      lower-case letters leave two. */
  lemma TripleSpaceLeavesTwo(a: char, b: char)
    requires IsLower(a) && IsLower(b)
    ensures NormalizeName([a, ' ', ' ', ' ', b]) == [a, ' ', ' ', b]
  {
    var s := [a, ' ', ' ', ' ', b];
    StrippedIsFixed(s);
    TripleReplaced(a, b);
    TripleLowered(a, b);
    NormalizeVia(s, [a, ' ', ' ', b], [a, ' ', ' ', b]);
  }

  /** normalize_name of a stripped name with no ',' and no '.'. */
  lemma NormalizeVia(name: string, collapsed: string, lowered: string)
    requires Strip(name) == name && ',' !in name && '.' !in name
    requires ReplaceAll(name, "  ", " ") == collapsed && Lower(collapsed) == lowered
    ensures NormalizeName(name) == lowered
  {
    ReplaceCharAbsent(name, ',');
    ReplaceCharAbsent(name, '.');
  }

  lemma TripleReplaced(a: char, b: char)
    requires a != ' ' && b != ' '
    ensures ReplaceAll([a, ' ', ' ', ' ', b], "  ", " ") == [a, ' ', ' ', b]
  {
    ReplaceFirst([a], [' ', b], "  ", " ");
    assert [a, ' ', ' ', ' ', b] == [a] + "  " + [' ', b];
    assert [' ', b][..2] != "  ";
    assert [' ', b][1..] == [b];
    assert ReplaceAll([' ', b], "  ", " ") == [' ', b];
  }

  lemma TripleLowered(a: char, b: char)
    requires IsLower(a) && IsLower(b)
    ensures Lower([a, ' ', ' ', b]) == [a, ' ', ' ', b]
  {
    var r := Lower([a, ' ', ' ', b]);
    assert r[0] == LowerChar(a) && r[1] == LowerChar(' ') && r[2] == LowerChar(' ') && r[3] == LowerChar(b);
  }

  // ---------------------------------------------------------------------------
  // The lookup tables
  // ---------------------------------------------------------------------------

  /** The normalized names, in list order. */
  function Keys(names: seq<string>): (ks: seq<string>)
    ensures |ks| == |names|
  {
    seq(|names|, i requires 0 <= i < |names| => NormalizeName(names[i]))
  }

  /** {normalize_name(name): name for name in names}: a later name with the same
      key overwrites the earlier one. */
  function Table(names: seq<string>): map<string, string> {
    Zip(Keys(names), names)
  }

  /** The table's key order: each key where its name first occurs. */
  function KeyOrder(names: seq<string>): seq<string> {
    Dedup(Keys(names))
  }

  /** [table[n] for n in order if n not in found], for the table's key order. */
  function Missing(order: seq<string>, table: map<string, string>, found: set<string>): seq<string>
    requires forall i :: 0 <= i < |order| ==> order[i] in table
  {
    var ks := Filter(order, (k: string) => k !in found);
    seq(|ks|, i requires 0 <= i < |ks| => table[ks[i]])
  }

  lemma MissingIff(order: seq<string>, table: map<string, string>, found: set<string>, x: string)
    requires forall i :: 0 <= i < |order| ==> order[i] in table
    ensures x in Missing(order, table, found) <==>
      exists k :: k in order && k !in found && table[k] == x
  {
    var ks := Filter(order, (k: string) => k !in found);
    var r := Missing(order, table, found);
    if exists k :: k in order && k !in found && table[k] == x {
      var k :| k in order && k !in found && table[k] == x;
      FilterIff(order, (k: string) => k !in found, k);
      var i :| 0 <= i < |ks| && ks[i] == k;
      assert r[i] == x;
    }
    if x in r {
      var i :| 0 <= i < |r| && r[i] == x;
      assert ks[i] in ks;
      FilterIff(order, (k: string) => k !in found, ks[i]);
    }
  }

  /** The key order holds exactly the table's keys. */
  lemma KeyOrderKeys(names: seq<string>, k: string)
    ensures k in KeyOrder(names) <==> k in Table(names)
  {
    DedupIn(Keys(names), k);
    ZipLookup(Keys(names), names, k);
  }

  lemma KeyOrderInTable(names: seq<string>)
    ensures forall i :: 0 <= i < |KeyOrder(names)| ==> KeyOrder(names)[i] in Table(names)
  {
    forall i | 0 <= i < |KeyOrder(names)| ensures KeyOrder(names)[i] in Table(names) {
      KeyOrderKeys(names, KeyOrder(names)[i]);
    }
  }

  /** The not-found list of the script, for one reference list. */
  function NotFound(names: seq<string>, found: set<string>): seq<string> {
    KeyOrderInTable(names);
    Missing(KeyOrder(names), Table(names), found)
  }

  /** The table's keys are the normalized names, and each key holds the last
      name of the list with that key. */
  lemma TableLookup(names: seq<string>, k: string)
    ensures k in Table(names) <==> k in Keys(names)
    ensures k in Table(names) ==>
      exists j :: 0 <= j < |names| && Keys(names)[j] == k && Table(names)[k] == names[j]
                  && forall l :: j < l < |names| ==> Keys(names)[l] != k
  {
    ZipLookup(Keys(names), names, k);
  }

  /** A reference name is reported missing exactly when it is the table's value
      for a key the found set lacks. */
  lemma NotFoundIff(names: seq<string>, found: set<string>, x: string)
    ensures x in NotFound(names, found) <==>
      exists k :: k in Table(names) && k !in found && Table(names)[k] == x
  {
    KeyOrderInTable(names);
    MissingIff(KeyOrder(names), Table(names), found, x);
    forall k ensures k in KeyOrder(names) <==> k in Table(names) {
      KeyOrderKeys(names, k);
    }
  }

  // ---------------------------------------------------------------------------
  // The status update
  // ---------------------------------------------------------------------------

  /** The status a row's normalized name calls for: Cremation wins over Vault;
      None for a name on neither list. */
  function Target(key: string, cremation: map<string, string>, vault: map<string, string>): (r: Option<string>)
    ensures r == Some("Cremation") <==> key in cremation
    ensures r == Some("Vault") <==> key !in cremation && key in vault
    ensures r.None? <==> key !in cremation && key !in vault
  {
    if key in cremation then Some("Cremation")
    else if key in vault then Some("Vault")
    else None
  }

  /** The key a row is looked up by: its normalized, stripped name. */
  function Key(o: Occupant): string {
    NormalizeName(Strip(o.name))
  }

  /** A row with its key, computed once. */
  datatype Named = Named(key: string, row: Occupant)

  function Keyed(occupants: seq<Occupant>): (es: seq<Named>)
    ensures |es| == |occupants|
  {
    seq(|occupants|, i requires 0 <= i < |occupants| => Named(Key(occupants[i]), occupants[i]))
  }

  /** A row after the update loop. */
  function Updated(e: Named, cremation: map<string, string>, vault: map<string, string>): Occupant {
    var t := Target(e.key, cremation, vault);
    if t.Some? then e.row.(status := t.value) else e.row
  }

  /** Only the status changes, and only for a listed name, to that list's status. */
  lemma OnlyStatusChanges(e: Named, cremation: map<string, string>, vault: map<string, string>)
    ensures var u := Updated(e, cremation, vault);
      u.lotId == e.row.lotId && u.name == e.row.name && u.birthDate == e.row.birthDate
      && u.deathDate == e.row.deathDate
      && (u.status != e.row.status ==> Target(e.key, cremation, vault) == Some(u.status))
  {
  }

  /** Updating twice is updating once. */
  lemma UpdateIdempotent(e: Named, cremation: map<string, string>, vault: map<string, string>)
    ensures Updated(Named(e.key, Updated(e, cremation, vault)), cremation, vault) == Updated(e, cremation, vault)
  {
  }

  /** The text the script records for a change: the stripped name and the lot. */
  function Describe(o: Occupant): string {
    Strip(o.name) + " (" + o.lotId + ")"
  }

  /** The record of one row for one status: present when the row's status is
      set to it. */
  function ChangeOf(e: Named, cremation: map<string, string>, vault: map<string, string>, status: string): seq<string> {
    if Target(e.key, cremation, vault) == Some(status) && e.row.status != status then [Describe(e.row)] else []
  }

  /** The changes to one status, in row order. */
  function Changes(es: seq<Named>, cremation: map<string, string>, vault: map<string, string>, status: string)
    : seq<string>
    decreases |es|
  {
    if es == [] then []
    else Changes(es[..|es| - 1], cremation, vault, status) + ChangeOf(es[|es| - 1], cremation, vault, status)
  }

  lemma ChangesStep(es: seq<Named>, cremation: map<string, string>, vault: map<string, string>, status: string, i: nat)
    requires i < |es|
    ensures Changes(es[..i + 1], cremation, vault, status)
      == Changes(es[..i], cremation, vault, status) + ChangeOf(es[i], cremation, vault, status)
  {
    PrefixSnoc(es, i);
  }

  /** The number of rows whose status the loop changes. */
  function ChangedRows(es: seq<Named>, cremation: map<string, string>, vault: map<string, string>): nat
    decreases |es|
  {
    if es == [] then 0
    else
      var e := es[|es| - 1];
      ChangedRows(es[..|es| - 1], cremation, vault) + (if Updated(e, cremation, vault) != e.row then 1 else 0)
  }

  /** Every changed row is recorded once, in the list of its new status. */
  lemma {:induction false} ChangesCounted(es: seq<Named>, cremation: map<string, string>, vault: map<string, string>)
    ensures |Changes(es, cremation, vault, "Cremation")| + |Changes(es, cremation, vault, "Vault")|
      == ChangedRows(es, cremation, vault)
    decreases |es|
  {
    if es != [] {
      ChangesCounted(es[..|es| - 1], cremation, vault);
    }
  }

  /** A list with no row still to change records no change. */
  lemma {:induction false} NoChanges(es: seq<Named>, cremation: map<string, string>, vault: map<string, string>,
                                     status: string)
    requires forall i :: 0 <= i < |es| ==> ChangeOf(es[i], cremation, vault, status) == []
    ensures Changes(es, cremation, vault, status) == []
    decreases |es|
  {
    if es != [] {
      var k := |es| - 1;
      forall i | 0 <= i < k ensures ChangeOf(es[..k][i], cremation, vault, status) == [] {
        assert es[..k][i] == es[i];
      }
      NoChanges(es[..k], cremation, vault, status);
    }
  }

  /** The rows the script writes back: every row, in order, updated. */
  function UpdatedAll(es: seq<Named>, cremation: map<string, string>, vault: map<string, string>)
    : (r: seq<Occupant>)
    ensures |r| == |es|
  {
    seq(|es|, i requires 0 <= i < |es| => Updated(es[i], cremation, vault))
  }

  /** A second run over the written rows changes nothing and records no change. */
  lemma RerunChangesNothing(occupants: seq<Occupant>, cremation: map<string, string>, vault: map<string, string>)
    ensures var once := UpdatedAll(Keyed(occupants), cremation, vault);
      UpdatedAll(Keyed(once), cremation, vault) == once
      && Changes(Keyed(once), cremation, vault, "Cremation") == []
      && Changes(Keyed(once), cremation, vault, "Vault") == []
  {
    var es := Keyed(occupants);
    var once := UpdatedAll(es, cremation, vault);
    var again := Keyed(once);
    forall i | 0 <= i < |once|
      ensures Updated(again[i], cremation, vault) == once[i]
      ensures ChangeOf(again[i], cremation, vault, "Cremation") == []
      ensures ChangeOf(again[i], cremation, vault, "Vault") == []
    {
      assert once[i].name == occupants[i].name;
      assert again[i] == Named(es[i].key, once[i]);
      UpdateIdempotent(es[i], cremation, vault);
    }
    SameElements(UpdatedAll(again, cremation, vault), once);
    NoChanges(again, cremation, vault, "Cremation");
    NoChanges(again, cremation, vault, "Vault");
  }

  /** The keys of a table that some row's key matches. */
  function Found(es: seq<Named>, table: map<string, string>): set<string>
    decreases |es|
  {
    if es == [] then {}
    else
      var key := es[|es| - 1].key;
      Found(es[..|es| - 1], table) + (if key in table then {key} else {})
  }

  lemma {:induction false} FoundIff(es: seq<Named>, table: map<string, string>, k: string)
    ensures k in Found(es, table) <==> k in table && exists i :: 0 <= i < |es| && es[i].key == k
    decreases |es|
  {
    if es != [] {
      var n := |es| - 1;
      FoundIff(es[..n], table, k);
      assert forall i :: 0 <= i < n ==> es[..n][i] == es[i];
    }
  }

  lemma FoundStep(es: seq<Named>, table: map<string, string>, i: nat, found: set<string>, key: string)
    requires i < |es| && found == Found(es[..i], table) && key == es[i].key
    ensures Found(es[..i + 1], table) == if key in table then found + {key} else found
  {
    PrefixSnoc(es, i);
  }

  /** What the run produces: the rows written back, the two change lists and
      the two not-found lists. */
  datatype Outcome = Outcome(rows: seq<Occupant>, cremationChanges: seq<string>, vaultChanges: seq<string>,
                             notFoundCremations: seq<string>, notFoundVaults: seq<string>)

  /** The update loop of main: each row's status is set in place when its name
      is listed and its status differs, and the change is recorded. */
  method UpdateStatuses(occupants: seq<Occupant>, cremation: map<string, string>, vault: map<string, string>)
    returns (rows: seq<Occupant>, cremationChanges: seq<string>, vaultChanges: seq<string>)
    ensures rows == UpdatedAll(Keyed(occupants), cremation, vault)
    ensures cremationChanges == Changes(Keyed(occupants), cremation, vault, "Cremation")
    ensures vaultChanges == Changes(Keyed(occupants), cremation, vault, "Vault")
  {
    ghost var es := Keyed(occupants);
    ghost var target := UpdatedAll(es, cremation, vault);
    rows, cremationChanges, vaultChanges := occupants, [], [];
    for i := 0 to |occupants|
      invariant |rows| == |occupants|
      invariant AgreeBelow(rows, target, i) && AgreeFrom(rows, occupants, i)
      invariant cremationChanges == Changes(es[..i], cremation, vault, "Cremation")
      invariant vaultChanges == Changes(es[..i], cremation, vault, "Vault")
    {
      ChangesStep(es, cremation, vault, "Cremation", i);
      ChangesStep(es, cremation, vault, "Vault", i);
      var occ := rows[i];
      var name := Strip(occ.name);
      var nameNorm := NormalizeName(name);
      assert es[i] == Named(nameNorm, occ);
      if nameNorm in cremation {
        if occ.status != "Cremation" {
          Advance(rows, target, occupants, i, occ.(status := "Cremation"));
          rows := rows[i := occ.(status := "Cremation")];
          cremationChanges := cremationChanges + [name + " (" + occ.lotId + ")"];
        } else {
          AdvanceSame(rows, target, occupants, i);
        }
      } else if nameNorm in vault {
        if occ.status != "Vault" {
          Advance(rows, target, occupants, i, occ.(status := "Vault"));
          rows := rows[i := occ.(status := "Vault")];
          vaultChanges := vaultChanges + [name + " (" + occ.lotId + ")"];
        } else {
          AdvanceSame(rows, target, occupants, i);
        }
      } else {
        AdvanceSame(rows, target, occupants, i);
      }
    }
    Whole(es);
    SameElements(rows, target);
  }

  /** The key a row's name is normalized to without the extra strip is its key. */
  lemma KeyIs(o: Occupant, k: string)
    requires k == NormalizeName(o.name)
    ensures Key(o) == k
  {
    NormalizeStripped(o.name);
  }

  /** The second loop of main: the keys of each table some row's name matches. */
  method FindNames(occupants: seq<Occupant>, cremation: map<string, string>, vault: map<string, string>)
    returns (foundCremations: set<string>, foundVaults: set<string>)
    ensures foundCremations == Found(Keyed(occupants), cremation)
    ensures foundVaults == Found(Keyed(occupants), vault)
  {
    ghost var es := Keyed(occupants);
    foundCremations, foundVaults := {}, {};
    for i := 0 to |occupants|
      invariant foundCremations == Found(es[..i], cremation)
      invariant foundVaults == Found(es[..i], vault)
    {
      var nameNorm := NormalizeName(occupants[i].name);
      KeyIs(occupants[i], nameNorm);
      FoundStep(es, cremation, i, foundCremations, nameNorm);
      FoundStep(es, vault, i, foundVaults, nameNorm);
      if nameNorm in cremation {
        foundCremations := foundCremations + {nameNorm};
      }
      if nameNorm in vault {
        foundVaults := foundVaults + {nameNorm};
      }
    }
    Whole(es);
  }

  /** main, for given reference lists: the rows it writes back (every row, in
      order, with only the status touched), the changes and the names not found. */
  ghost function OutcomeOf(occupants: seq<Occupant>, cremations: seq<string>, vaults: seq<string>): Outcome {
    var es := Keyed(occupants);
    var cremation := Table(cremations);
    var vault := Table(vaults);
    Outcome(UpdatedAll(es, cremation, vault),
            Changes(es, cremation, vault, "Cremation"), Changes(es, cremation, vault, "Vault"),
            NotFound(cremations, Found(es, cremation)), NotFound(vaults, Found(es, vault)))
  }

  method UpdateFromLists(occupants: seq<Occupant>, cremations: seq<string>, vaults: seq<string>)
    returns (r: Outcome)
    ensures r == OutcomeOf(occupants, cremations, vaults)
  {
    var cremation := Table(cremations);
    var vault := Table(vaults);
    var rows, cremationChanges, vaultChanges := UpdateStatuses(occupants, cremation, vault);
    var foundCremations, foundVaults := FindNames(occupants, cremation, vault);
    r := Outcome(rows, cremationChanges, vaultChanges,
                 NotFound(cremations, foundCremations), NotFound(vaults, foundVaults));
  }

  /** main with the script's own lists. */
  method UpdateCremationVault(occupants: seq<Occupant>) returns (r: Outcome)
    ensures r == OutcomeOf(occupants, Cremations, Vaults)
  {
    r := UpdateFromLists(occupants, Cremations, Vaults);
  }

  /** A reference name is reported not found exactly when no row's name
      normalizes to its key, and the name is the last of its key. */
  lemma NotFoundMeaning(occupants: seq<Occupant>, cremations: seq<string>, vaults: seq<string>, x: string)
    ensures x in OutcomeOf(occupants, cremations, vaults).notFoundCremations <==>
      exists k :: k in Table(cremations) && Table(cremations)[k] == x
                  && forall i :: 0 <= i < |occupants| ==> Key(occupants[i]) != k
  {
    var es := Keyed(occupants);
    NotFoundIff(cremations, Found(es, Table(cremations)), x);
    forall k ensures k in Found(es, Table(cremations)) <==>
      k in Table(cremations) && exists i :: 0 <= i < |occupants| && Key(occupants[i]) == k
    {
      FoundIff(es, Table(cremations), k);
      assert forall i :: 0 <= i < |es| ==> es[i].key == Key(occupants[i]);
    }
  }

  /** A name on both lists is set to Cremation: the Cremation list is looked at
      first. */
  lemma CremationFirst(o: Occupant, cremations: seq<string>, vaults: seq<string>, i: nat, j: nat)
    requires i < |cremations| && j < |vaults| && Key(o) == NormalizeName(cremations[i]) == NormalizeName(vaults[j])
    ensures Updated(Named(Key(o), o), Table(cremations), Table(vaults)).status == "Cremation"
  {
    TableLookup(cremations, Key(o));
    assert Keys(cremations)[i] == Key(o);
  }

  lemma HughJohnsonListed()
    ensures Cremations[35] == "Hugh E. Johnson" && Vaults[8] == "Hugh E. Johnson"
  {
  }

  /** Hugh E. Johnson is on both of the script's lists, and is marked a cremation. */
  lemma HughJohnsonIsCremation(o: Occupant)
    requires Key(o) == NormalizeName("Hugh E. Johnson")
    ensures Updated(Named(Key(o), o), Table(Cremations), Table(Vaults)).status == "Cremation"
  {
    HughJohnsonListed();
    CremationFirst(o, Cremations, Vaults, 35, 8);
  }
}
