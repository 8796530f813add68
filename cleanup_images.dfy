/** cleanup_missing_images.py: drop from each `monument_images` cell of
    plots.csv the names whose file does not exist in the folder of the name's
    yard prefix. The folders are a Listing keyed by the folder paths the script
    builds ("Monument Images/OICA Church Yard" and so on). */
module CleanupImages {
  import opened Wrappers
  import opened Text
  import opened Collections
  import opened Records

  /** YARD_MAPPINGS of this script: prefix to folder name. */
  const YardFolders: map<string, string> :=
    map["CY" := "OICA Church Yard", "IT" := "OICA Intervale", "NY" := "OICA New Yard",
        "OY" := "OICA Old Yard", "UT" := "OICA Upper Terrace"]

  /** The folder used for a prefix that is not in YardFolders. */
  const FallbackFolder: string := "OICA Church Yard"

  /** filename[:2] */
  function Head2(s: string): (r: string)
    ensures |r| <= 2 && StartsWith(s, r)
    ensures |s| >= 2 ==> |r| == 2
    ensures |s| < 2 ==> r == s
  {
    if |s| < 2 then s else s[..2]
  }

  /** get_image_folder: the folder of the uppercased two-character prefix, or
      the Church Yard folder for any other prefix. */
  function ImageFolder(filename: string): (r: string)
    ensures StartsWith(r, "Monument Images/")
    ensures r[|"Monument Images/"|..] in YardFolders.Values
  {
    var prefix := Upper(Head2(filename));
    var name := if prefix in YardFolders then YardFolders[prefix] else FallbackFolder;
    assert FallbackFolder == YardFolders["CY"];
    "Monument Images/" + name
  }

  /** A name with a known prefix, in either case, goes to that prefix's folder. */
  lemma FolderOfKnownPrefix(filename: string, code: string)
    requires code in YardFolders && |filename| >= 2 && Upper(filename[..2]) == code
    ensures ImageFolder(filename) == "Monument Images/" + YardFolders[code]
  {
  }

  /** Any other prefix, a missing one included, silently falls back to the
      Church Yard folder. */
  lemma UnknownPrefixFallsBack(filename: string)
    requires Upper(Head2(filename)) !in YardFolders
    ensures ImageFolder(filename) == "Monument Images/OICA Church Yard"
  {
  }

  /** check_image_exists: the base path argument plays no part. */
  predicate ImageExists(filename: string, basePath: string, tree: Listing) {
    FileExists(tree, ImageFolder(filename), filename)
  }

  /** The default base path of check_image_exists. */
  const DefaultBase: string := "Monument Images"

  lemma BasePathIgnored(filename: string, a: string, b: string, tree: Listing)
    ensures ImageExists(filename, a, tree) == ImageExists(filename, b, tree)
  {
  }

  // ---------------------------------------------------------------------------
  // The valid / removed partition of one cell
  // ---------------------------------------------------------------------------

  /** The test of the inner loop: the file of a name exists. */
  function Found(tree: Listing): string -> bool {
    x => ImageExists(x, DefaultBase, tree)
  }

  function Missing(tree: Listing): string -> bool {
    x => !ImageExists(x, DefaultBase, tree)
  }

  /** valid_images: the names whose file exists, in list order. */
  function Kept(images: seq<string>, tree: Listing): (r: seq<string>)
    ensures forall i :: 0 <= i < |r| ==> r[i] in images && ImageExists(r[i], DefaultBase, tree)
  {
    Filter(images, Found(tree))
  }

  /** removed_images: the names whose file does not exist, in list order. */
  function Dropped(images: seq<string>, tree: Listing): (r: seq<string>)
    ensures forall i :: 0 <= i < |r| ==> r[i] in images && !ImageExists(r[i], DefaultBase, tree)
  {
    Filter(images, Missing(tree))
  }

  /** valid and removed split the list: together they hold every name exactly
      as often as the list does. */
  lemma PartitionOf(images: seq<string>, tree: Listing)
    ensures multiset(Kept(images, tree)) + multiset(Dropped(images, tree)) == multiset(images)
    ensures |Kept(images, tree)| + |Dropped(images, tree)| == |images|
  {
    FilterSplit(images, Found(tree), Missing(tree));
  }

  /** A name is kept exactly when its file exists, and removed exactly when
      it does not. */
  lemma KeptIff(images: seq<string>, tree: Listing, x: string)
    ensures x in Kept(images, tree) <==> x in images && ImageExists(x, DefaultBase, tree)
    ensures x in Dropped(images, tree) <==> x in images && !ImageExists(x, DefaultBase, tree)
  {
    FilterIff(images, Found(tree), x);
    FilterIff(images, Missing(tree), x);
  }

  /** Nothing is removed exactly when the list is kept whole. */
  lemma NothingDropped(images: seq<string>, tree: Listing)
    ensures Dropped(images, tree) == [] <==> Kept(images, tree) == images
  {
    FilterAll(images, Found(tree));
    FilterNone(images, Missing(tree));
  }

  /** Filtering the kept names again keeps them all. */
  lemma KeptStable(images: seq<string>, tree: Listing)
    ensures Kept(Kept(images, tree), tree) == Kept(images, tree)
  {
    FilterAll(Kept(images, tree), Found(tree));
  }

  lemma KeptClean(images: seq<string>, tree: Listing)
    requires CleanNames(images)
    ensures CleanNames(Kept(images, tree))
  {
    var k := Kept(images, tree);
    forall i | 0 <= i < |k| ensures IsCleanName(k[i]) {
      var j :| 0 <= j < |images| && images[j] == k[i];
    }
  }

  lemma KeptStep(images: seq<string>, tree: Listing, i: nat)
    requires i < |images|
    ensures Kept(images[..i + 1], tree)
      == Kept(images[..i], tree) + (if ImageExists(images[i], DefaultBase, tree) then [images[i]] else [])
    ensures Dropped(images[..i + 1], tree)
      == Dropped(images[..i], tree) + (if ImageExists(images[i], DefaultBase, tree) then [] else [images[i]])
  {
    FilterStep(images, Found(tree), i);
    FilterStep(images, Missing(tree), i);
  }

  /** The inner loop of cleanup_csv over one cell's names. */
  method SplitImages(images: seq<string>, tree: Listing) returns (valid: seq<string>, removed: seq<string>)
    ensures valid == Kept(images, tree) && removed == Dropped(images, tree)
  {
    valid, removed := [], [];
    for i := 0 to |images|
      invariant valid == Kept(images[..i], tree) && removed == Dropped(images[..i], tree)
    {
      var img := images[i];
      KeptStep(images, tree, i);
      if ImageExists(img, DefaultBase, tree) {
        valid := valid + [img];
      } else {
        removed := removed + [img];
      }
    }
    Whole(images);
  }

  // ---------------------------------------------------------------------------
  // One row
  // ---------------------------------------------------------------------------

  /** The row after the loop body, its number of names, and how many were removed. */
  datatype RowCleanup = RowCleanup(row: Plot, checked: nat, removed: nat)

  /** The loop body of cleanup_csv for one row. A blank cell is skipped; a cell
      loses its missing names, and is rewritten only when it lost some. */
  function CleanedRow(row: Plot, tree: Listing): (r: RowCleanup)
    ensures r.row.plotId == row.plotId
    ensures r.checked == |StoredImages(row.monumentImages)|
    ensures r.removed == |Dropped(StoredImages(row.monumentImages), tree)|
    ensures r.removed == 0 ==> r.row == row
  {
    var cell := Strip(row.monumentImages);
    if cell == [] then RowCleanup(row, 0, 0)
    else
      var images := StoredImages(row.monumentImages);
      var valid := Kept(images, tree);
      var removed := Dropped(images, tree);
      if removed != [] then
        var newValue := if valid != [] then Join("; ", valid) else "";
        RowCleanup(row.(monumentImages := newValue), |images|, |removed|)
      else RowCleanup(row, |images|, 0)
  }

  /** A rewritten cell lists exactly the names whose file exists. */
  lemma CleanedRowLists(row: Plot, tree: Listing)
    ensures StoredImages(CleanedRow(row, tree).row.monumentImages) == Kept(StoredImages(row.monumentImages), tree)
  {
    var images := StoredImages(row.monumentImages);
    var valid := Kept(images, tree);
    var r := CleanedRow(row, tree).row;
    if Strip(row.monumentImages) == [] {
      assert Split([], ';') == [[]];
      assert images == [];
    } else if Dropped(images, tree) == [] {
      NothingDropped(images, tree);
      assert r == row;
    } else {
      KeptClean(images, tree);
      StoredImagesOfJoin(valid);
      assert r.monumentImages == (if valid != [] then Join("; ", valid) else "");
    }
  }

  /** A row changes exactly when some of its names were removed. */
  lemma CleanedRowChanges(row: Plot, tree: Listing)
    ensures CleanedRow(row, tree).row != row <==> CleanedRow(row, tree).removed > 0
  {
    var images := StoredImages(row.monumentImages);
    var r := CleanedRow(row, tree);
    if r.removed > 0 {
      CleanedRowLists(row, tree);
      PartitionOf(images, tree);
      assert |StoredImages(r.row.monumentImages)| < |images|;
    }
  }

  /** Cleaning a cleaned row again removes nothing and leaves it as it is. */
  lemma CleanedRowStable(row: Plot, tree: Listing)
    ensures var r := CleanedRow(row, tree).row; CleanedRow(r, tree) == RowCleanup(r, CleanedRow(r, tree).checked, 0)
  {
    var r := CleanedRow(row, tree).row;
    var images := StoredImages(row.monumentImages);
    CleanedRowLists(row, tree);
    KeptStable(images, tree);
    NothingDropped(Kept(images, tree), tree);
  }

  /** The body of the outer loop of cleanup_csv for one row. */
  method CleanRow(row: Plot, tree: Listing) returns (row': Plot, checked: nat, removedCount: nat)
    ensures RowCleanup(row', checked, removedCount) == CleanedRow(row, tree)
  {
    row', checked, removedCount := row, 0, 0;
    var monumentImages := Strip(row.monumentImages);
    if monumentImages == [] {
      return;
    }
    var images := CleanPieces(Split(monumentImages, ';'));
    checked := |images|;
    var valid, removed := SplitImages(images, tree);
    removedCount := |removed|;
    if removed != [] {
      var newValue := if valid != [] then Join("; ", valid) else "";
      row' := row.(monumentImages := newValue);
    }
  }

  // ---------------------------------------------------------------------------
  // The whole file
  // ---------------------------------------------------------------------------

  /** The rows as cleanup_csv leaves them. */
  function CleanedRows(rows: seq<Plot>, tree: Listing): (r: seq<Plot>)
    ensures |r| == |rows|
    ensures forall i :: 0 <= i < |rows| ==> r[i] == CleanedRow(rows[i], tree).row
  {
    seq(|rows|, i requires 0 <= i < |rows| => CleanedRow(rows[i], tree).row)
  }

  /** total_images_checked, total_images_removed and plots_modified. */
  datatype Counts = Counts(checked: nat, removed: nat, modified: nat)

  /** The counters one more row leaves. */
  function AddRow(c: Counts, r: RowCleanup): Counts {
    Counts(c.checked + r.checked, c.removed + r.removed, c.modified + (if r.removed > 0 then 1 else 0))
  }

  /** The counters after the loop, from the per-row results in order. */
  function Tally(rs: seq<RowCleanup>): (c: Counts)
    ensures c.modified <= |rs|
    decreases |rs|
  {
    if rs == [] then Counts(0, 0, 0) else AddRow(Tally(rs[..|rs| - 1]), rs[|rs| - 1])
  }

  /** One more row adds its results to the counters. */
  lemma TallyStep(rs: seq<RowCleanup>, r: RowCleanup)
    ensures var c := Tally(rs); var d := Tally(rs + [r]);
      d.checked == c.checked + r.checked && d.removed == c.removed + r.removed
      && d.modified == c.modified + (if r.removed > 0 then 1 else 0)
  {
    Snoc(rs, r);
  }

  /** Nothing is removed exactly when no row counts as modified ... */
  lemma {:induction false} TallyQuiet(rs: seq<RowCleanup>)
    ensures Tally(rs).removed == 0 <==> Tally(rs).modified == 0
    decreases |rs|
  {
    if rs != [] {
      TallyQuiet(rs[..|rs| - 1]);
    }
  }

  /** ... and exactly when no row removed anything. */
  lemma {:induction false} TallyUnmodified(rs: seq<RowCleanup>)
    ensures Tally(rs).modified == 0 <==> forall i :: 0 <= i < |rs| ==> rs[i].removed == 0
    decreases |rs|
  {
    if rs != [] {
      var init := rs[..|rs| - 1];
      TallyUnmodified(init);
      assert forall i :: 0 <= i < |init| ==> init[i] == rs[i];
    }
  }

  /** The results of the loop body for the rows of plots.csv, in order. */
  function Cleaned(rows: seq<Plot>, tree: Listing): (rs: seq<RowCleanup>)
    ensures |rs| == |rows|
    decreases |rows|
  {
    if rows == [] then [] else Cleaned(rows[..|rows| - 1], tree) + [CleanedRow(rows[|rows| - 1], tree)]
  }

  /** One more row adds its result. */
  lemma CleanedStep(rows: seq<Plot>, tree: Listing, i: nat)
    requires i < |rows|
    ensures Cleaned(rows[..i + 1], tree) == Cleaned(rows[..i], tree) + [CleanedRow(rows[i], tree)]
  {
    PrefixSnoc(rows, i);
  }

  /** The k-th result is the loop body's result for the k-th row. */
  lemma {:induction false} CleanedAt(rows: seq<Plot>, tree: Listing, k: nat)
    requires k < |rows|
    ensures Cleaned(rows, tree)[k] == CleanedRow(rows[k], tree)
    decreases |rows|
  {
    var init := rows[..|rows| - 1];
    if k < |init| {
      CleanedAt(init, tree, k);
      ConcatIndexLeft(Cleaned(init, tree), [CleanedRow(rows[|rows| - 1], tree)], k);
      assert init[k] == rows[k];
    }
  }

  /** cleanup_csv's counters after its loop: plots_modified counts the rows
      that lost a name, total_images_removed adds up what they lost. */
  function CountsOf(rows: seq<Plot>, tree: Listing): (c: Counts)
    ensures c.modified <= |rows|
  {
    Tally(Cleaned(rows, tree))
  }

  /** No name is removed exactly when no plot is modified ... */
  lemma UnmodifiedIff(rows: seq<Plot>, tree: Listing)
    ensures CountsOf(rows, tree).removed == 0 <==> CountsOf(rows, tree).modified == 0
  {
    TallyQuiet(Cleaned(rows, tree));
  }

  /** ... and exactly when no row lost a name: */
  lemma UnmodifiedRowsIff(rows: seq<Plot>, tree: Listing)
    ensures CountsOf(rows, tree).modified == 0 <==> forall i :: 0 <= i < |rows| ==> CleanedRow(rows[i], tree).removed == 0
  {
    UnmodifiedNoneLost(rows, tree);
    NoneLostUnmodified(rows, tree);
  }

  /** with no plot modified, no row lost a name, ... */
  lemma UnmodifiedNoneLost(rows: seq<Plot>, tree: Listing)
    ensures CountsOf(rows, tree).modified == 0 ==> forall i :: 0 <= i < |rows| ==> CleanedRow(rows[i], tree).removed == 0
  {
    var rs := Cleaned(rows, tree);
    TallyUnmodified(rs);
    if Tally(rs).modified == 0 {
      forall i | 0 <= i < |rows| ensures CleanedRow(rows[i], tree).removed == 0 {
        CleanedAt(rows, tree, i);
      }
    }
  }

  /** and with no row losing a name, no plot is modified. */
  lemma NoneLostUnmodified(rows: seq<Plot>, tree: Listing)
    ensures (forall i :: 0 <= i < |rows| ==> CleanedRow(rows[i], tree).removed == 0) ==> CountsOf(rows, tree).modified == 0
  {
    var rs := Cleaned(rows, tree);
    TallyUnmodified(rs);
    if forall i :: 0 <= i < |rows| ==> CleanedRow(rows[i], tree).removed == 0 {
      forall i | 0 <= i < |rs| ensures rs[i].removed == 0 {
        CleanedAt(rows, tree, i);
      }
    }
  }

  /** When no plot is modified the rows are the input rows. */
  lemma UnmodifiedRows(rows: seq<Plot>, tree: Listing)
    ensures CountsOf(rows, tree).modified == 0 ==> CleanedRows(rows, tree) == rows
  {
    UnmodifiedRowsIff(rows, tree);
    if CountsOf(rows, tree).modified == 0 {
      forall i | 0 <= i < |rows| ensures CleanedRows(rows, tree)[i] == rows[i] {
        assert CleanedRow(rows[i], tree).removed == 0;
      }
      SameElements(CleanedRows(rows, tree), rows);
    }
  }

  /** A second run over the written rows removes nothing, modifies no plot and
      writes the same rows. */
  lemma RerunRemovesNothing(rows: seq<Plot>, tree: Listing)
    ensures var once := CleanedRows(rows, tree);
      CountsOf(once, tree).removed == 0 && CountsOf(once, tree).modified == 0
      && CleanedRows(once, tree) == once
  {
    var once := CleanedRows(rows, tree);
    forall i | 0 <= i < |once| ensures CleanedRow(once[i], tree).removed == 0 {
      CleanedRowStable(rows[i], tree);
    }
    UnmodifiedRowsIff(once, tree);
    UnmodifiedIff(once, tree);
    UnmodifiedRows(once, tree);
  }

  /** The loop of cleanup_csv: each row in turn is cleaned in place, and the
      counters grow. */
  method CleanRows(rows: seq<Plot>, tree: Listing)
    returns (rows': seq<Plot>, totalChecked: nat, totalRemoved: nat, plotsModified: nat)
    ensures rows' == CleanedRows(rows, tree)
    ensures Counts(totalChecked, totalRemoved, plotsModified) == CountsOf(rows, tree)
  {
    rows', totalChecked, totalRemoved, plotsModified := rows, 0, 0, 0;
    ghost var rs: seq<RowCleanup> := [];
    ghost var target := CleanedRows(rows, tree);
    for i := 0 to |rows|
      invariant |rows'| == |rows| && rs == Cleaned(rows[..i], tree)
      invariant AgreeBelow(rows', target, i) && AgreeFrom(rows', rows, i)
      invariant var c := Tally(rs);
        c.checked == totalChecked && c.removed == totalRemoved && c.modified == plotsModified
    {
      var row, checked, removed := CleanRow(rows[i], tree);
      TallyStep(rs, RowCleanup(row, checked, removed));
      CleanedStep(rows, tree, i);
      rs := rs + [RowCleanup(row, checked, removed)];
      totalChecked := totalChecked + checked;
      totalRemoved := totalRemoved + removed;
      if removed > 0 {
        plotsModified := plotsModified + 1;
        Advance(rows', target, rows, i, row);
        rows' := rows'[i := row];
      } else {
        AdvanceSame(rows', target, rows, i);
      }
    }
    Whole(rows);
    SameElements(rows', target);
  }

  /** cleanup_csv. `csv` is None when plots.csv does not exist, and the result
      is then None. Otherwise it holds plots_modified, and the rows are written
      back only on a real run that modified some plot. */
  method CleanupCsv(csv: Option<seq<Plot>>, tree: Listing, dryRun: bool)
    returns (plotsModified: Option<nat>, totalChecked: nat, totalRemoved: nat, written: Option<seq<Plot>>)
    ensures csv.None? ==> plotsModified.None? && written.None?
    ensures csv.Some? ==> var c := CountsOf(csv.value, tree);
      plotsModified == Some(c.modified) && totalChecked == c.checked && totalRemoved == c.removed
      && (written.Some? <==> !dryRun && c.modified > 0)
      && (written.Some? ==> written.value == CleanedRows(csv.value, tree))
  {
    totalChecked, totalRemoved := 0, 0;
    plotsModified, written := None, None;
    if csv.None? {
      return;
    }
    var rows, modified;
    rows, totalChecked, totalRemoved, modified := CleanRows(csv.value, tree);
    plotsModified := Some(modified);
    if !dryRun && modified > 0 {
      written := Some(rows);
    }
  }
}
