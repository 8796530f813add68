/** scripts/verify_images.py: check that every image named in plots.csv exists
    in the folder of its plot's section, and summarise the plots by section.
    The folders are a Listing keyed by the paths the script builds under
    "Monument Images" ("Monument Images/OICA Church Yard" and so on). */
module VerifyImages {
  import opened Wrappers
  import opened Text
  import opened Collections
  import opened Records

  /** folder_path / img, relative to the script's directory. */
  function ImagePath(folder: string, img: string): string { FolderPath(folder) + "/" + img }

  lemma ShortIdUnknown(plotId: string)
    requires |plotId| < 2
    ensures !Known(SectionPrefix(plotId))
  {
  }

  // ---------------------------------------------------------------------------
  // The entries of the three lists
  // ---------------------------------------------------------------------------

  /** An entry of valid_images. */
  datatype ValidImage = ValidImage(plotId: string, image: string, path: string)

  /** An entry of missing_images: with a reason when the folder does not exist,
      with the expected path when the file does not. */
  datatype MissingImage =
    | FolderNotFound(plotId: string, image: string, reason: string)
    | NotFound(plotId: string, image: string, expectedPath: string)

  /** An entry of unknown_sections. */
  datatype UnknownSection = UnknownSection(plotId: string, section: Option<string>)

  function ValidNames(vs: seq<ValidImage>): (r: seq<string>)
    ensures |r| == |vs| && forall i :: 0 <= i < |vs| ==> r[i] == vs[i].image
  {
    seq(|vs|, i requires 0 <= i < |vs| => vs[i].image)
  }

  function MissingNames(ms: seq<MissingImage>): (r: seq<string>)
    ensures |r| == |ms| && forall i :: 0 <= i < |ms| ==> r[i] == ms[i].image
  {
    seq(|ms|, i requires 0 <= i < |ms| => ms[i].image)
  }

  // ---------------------------------------------------------------------------
  // The images of one plot whose section has a folder
  // ---------------------------------------------------------------------------

  /** The entries a plot adds when its folder does not exist: every image is
      missing, with the folder as the reason. */
  function FolderMissing(plotId: string, folder: string, images: seq<string>): (r: seq<MissingImage>)
    ensures |r| == |images|
    ensures forall i :: 0 <= i < |r| ==>
      r[i] == FolderNotFound(plotId, images[i], "Folder not found: " + folder)
    decreases |images|
  {
    if images == [] then []
    else
      var init := images[..|images| - 1];
      assert forall i :: 0 <= i < |init| ==> init[i] == images[i];
      FolderMissing(plotId, folder, init)
        + [FolderNotFound(plotId, images[|images| - 1], "Folder not found: " + folder)]
  }

  /** The two lists the inner loop fills for an existing folder. */
  datatype Checked = Checked(valid: seq<ValidImage>, missing: seq<MissingImage>)

  /** The test of the inner loop: the image's path exists. */
  predicate InFolder(tree: Listing, folder: string, img: string) {
    FileExists(tree, FolderPath(folder), img)
  }

  function Present(tree: Listing, folder: string): string -> bool {
    x => InFolder(tree, folder, x)
  }

  function Absent(tree: Listing, folder: string): string -> bool {
    x => !InFolder(tree, folder, x)
  }

  /** The inner loop over the images of a plot in an existing folder: each
      image is appended to valid_images or to missing_images. */
  function CheckedImages(plotId: string, folder: string, images: seq<string>, tree: Listing): (r: Checked)
    ensures |r.valid| + |r.missing| == |images|
    ensures forall i :: 0 <= i < |r.valid| ==>
      r.valid[i].plotId == plotId && r.valid[i].path == ImagePath(folder, r.valid[i].image)
    ensures forall i :: 0 <= i < |r.missing| ==>
      r.missing[i] == NotFound(plotId, r.missing[i].image, ImagePath(folder, r.missing[i].image))
    decreases |images|
  {
    if images == [] then Checked([], [])
    else
      var c := CheckedImages(plotId, folder, images[..|images| - 1], tree);
      var img := images[|images| - 1];
      if InFolder(tree, folder, img) then Checked(c.valid + [ValidImage(plotId, img, ImagePath(folder, img))], c.missing)
      else Checked(c.valid, c.missing + [NotFound(plotId, img, ImagePath(folder, img))])
  }

  lemma CheckedStep(plotId: string, folder: string, images: seq<string>, tree: Listing, k: nat)
    requires k < |images|
    ensures var c := CheckedImages(plotId, folder, images[..k], tree);
      var img := images[k];
      CheckedImages(plotId, folder, images[..k + 1], tree)
        == if InFolder(tree, folder, img) then Checked(c.valid + [ValidImage(plotId, img, ImagePath(folder, img))], c.missing)
           else Checked(c.valid, c.missing + [NotFound(plotId, img, ImagePath(folder, img))])
  {
    PrefixSnoc(images, k);
  }

  /** The valid names are the images whose file exists and the missing names
      the others, each in list order. */
  lemma {:induction false} CheckedPartition(plotId: string, folder: string, images: seq<string>, tree: Listing)
    ensures var c := CheckedImages(plotId, folder, images, tree);
      ValidNames(c.valid) == Filter(images, Present(tree, folder))
      && MissingNames(c.missing) == Filter(images, Absent(tree, folder))
    decreases |images|
  {
    if images != [] {
      var k := |images| - 1;
      var init := images[..k];
      CheckedPartition(plotId, folder, init, tree);
      FilterStep(images, Present(tree, folder), k);
      FilterStep(images, Absent(tree, folder), k);
      Whole(images);
      var c := CheckedImages(plotId, folder, init, tree);
      var d := CheckedImages(plotId, folder, images, tree);
      var img := images[k];
      if InFolder(tree, folder, img) {
        assert ValidNames(d.valid) == ValidNames(c.valid) + [img];
        assert d.missing == c.missing;
      } else {
        assert MissingNames(d.missing) == MissingNames(c.missing) + [img];
        assert d.valid == c.valid;
      }
    }
  }

  /** Each image of an existing folder is valid exactly when its file exists
      and missing exactly when it does not, and the two lists together hold
      every image as often as the plot names it. */
  lemma ExactlyOne(plotId: string, folder: string, images: seq<string>, tree: Listing, img: string)
    requires img in images
    ensures var c := CheckedImages(plotId, folder, images, tree);
      (img in ValidNames(c.valid) <==> InFolder(tree, folder, img))
      && (img in MissingNames(c.missing) <==> !InFolder(tree, folder, img))
      && multiset(ValidNames(c.valid)) + multiset(MissingNames(c.missing)) == multiset(images)
  {
    CheckedPartition(plotId, folder, images, tree);
    FilterIff(images, Present(tree, folder), img);
    FilterIff(images, Absent(tree, folder), img);
    FilterSplit(images, Present(tree, folder), Absent(tree, folder));
  }

  /** The inner loop of verify_images over one plot's images. */
  method CheckImages(plotId: string, folder: string, images: seq<string>, tree: Listing)
    returns (valid: seq<ValidImage>, missing: seq<MissingImage>)
    ensures Checked(valid, missing) == CheckedImages(plotId, folder, images, tree)
  {
    valid, missing := [], [];
    for k := 0 to |images|
      invariant Checked(valid, missing) == CheckedImages(plotId, folder, images[..k], tree)
    {
      var img := images[k];
      CheckedStep(plotId, folder, images, tree, k);
      var imagePath := ImagePath(folder, img);
      if FileExists(tree, FolderPath(folder), img) {
        valid := valid + [ValidImage(plotId, img, imagePath)];
      } else {
        missing := missing + [NotFound(plotId, img, imagePath)];
      }
    }
    Whole(images);
  }

  /** The loop that reports every image of a plot whose folder does not exist. */
  method ReportFolderMissing(plotId: string, folder: string, images: seq<string>)
    returns (missing: seq<MissingImage>)
    ensures missing == FolderMissing(plotId, folder, images)
  {
    missing := [];
    for k := 0 to |images|
      invariant missing == FolderMissing(plotId, folder, images[..k])
    {
      PrefixSnoc(images, k);
      missing := missing + [FolderNotFound(plotId, images[k], "Folder not found: " + folder)];
    }
    Whole(images);
  }

  // ---------------------------------------------------------------------------
  // One plot
  // ---------------------------------------------------------------------------

  /** What one plot adds: whether it has images, how many, and its entries in
      unknown_sections, valid_images and missing_images. */
  datatype PlotResult = PlotResult(hasImages: bool, refs: nat, unknown: seq<UnknownSection>,
                                   valid: seq<ValidImage>, missing: seq<MissingImage>)

  /** The body of the loop of verify_images for one plot. */
  function CheckPlot(plot: Plot, tree: Listing): (r: PlotResult)
    ensures r.hasImages <==> ParseImages(plot.monumentImages) != []
    ensures r.refs == |ParseImages(plot.monumentImages)|
    ensures r.unknown == (if r.hasImages && !Known(SectionPrefix(plot.plotId))
                          then [UnknownSection(plot.plotId, SectionPrefix(plot.plotId))] else [])
    ensures |r.valid| + |r.missing| + (if r.unknown != [] then r.refs else 0) == r.refs
  {
    var images := ParseImages(plot.monumentImages);
    if images == [] then PlotResult(false, 0, [], [], [])
    else
      var section := SectionPrefix(plot.plotId);
      if !Known(section) then PlotResult(true, |images|, [UnknownSection(plot.plotId, section)], [], [])
      else
        var folder := FolderMap[section.value];
        if FolderPath(folder) !in tree then PlotResult(true, |images|, [], [], FolderMissing(plot.plotId, folder, images))
        else
          var c := CheckedImages(plot.plotId, folder, images, tree);
          PlotResult(true, |images|, [], c.valid, c.missing)
  }

  /** When a plot's folder does not exist, every one of its images is missing
      for that reason and none is valid. */
  lemma FolderMissingAllMissing(plot: Plot, tree: Listing)
    requires var section := SectionPrefix(plot.plotId);
      Known(section) && FolderPath(FolderMap[section.value]) !in tree
    ensures var r := CheckPlot(plot, tree);
      var folder := FolderMap[SectionPrefix(plot.plotId).value];
      r.valid == [] && MissingNames(r.missing) == ParseImages(plot.monumentImages)
      && forall i :: 0 <= i < |r.missing| ==>
           r.missing[i].FolderNotFound? && r.missing[i].reason == "Folder not found: " + folder
  {
    var images := ParseImages(plot.monumentImages);
    if images != [] {
      SameElements(MissingNames(CheckPlot(plot, tree).missing), images);
    }
  }

  /** When the folder exists, the plot's valid and missing names split its
      images by whether the file exists. */
  lemma FolderPresentSplits(plot: Plot, tree: Listing)
    requires var section := SectionPrefix(plot.plotId);
      Known(section) && FolderPath(FolderMap[section.value]) in tree
    ensures var r := CheckPlot(plot, tree);
      var folder := FolderMap[SectionPrefix(plot.plotId).value];
      var images := ParseImages(plot.monumentImages);
      ValidNames(r.valid) == Filter(images, Present(tree, folder))
      && MissingNames(r.missing) == Filter(images, Absent(tree, folder))
  {
    var images := ParseImages(plot.monumentImages);
    var folder := FolderMap[SectionPrefix(plot.plotId).value];
    CheckedPartition(plot.plotId, folder, images, tree);
    if images == [] {
      assert Filter(images, Present(tree, folder)) == [];
      assert Filter(images, Absent(tree, folder)) == [];
    }
  }

  /** The body of the loop of verify_images for one plot. */
  method VerifyPlot(plot: Plot, tree: Listing) returns (r: PlotResult)
    ensures r == CheckPlot(plot, tree)
  {
    var plotId := plot.plotId;
    var imageList := ParseImages(plot.monumentImages);
    if imageList == [] {
      return PlotResult(false, 0, [], [], []);
    }
    var section := SectionPrefix(plotId);
    if !(section.Some? && section.value in FolderMap) {
      return PlotResult(true, |imageList|, [UnknownSection(plotId, section)], [], []);
    }
    var folderName := FolderMap[section.value];
    if FolderPath(folderName) !in tree {
      var missing := ReportFolderMissing(plotId, folderName, imageList);
      return PlotResult(true, |imageList|, [], [], missing);
    }
    var valid, missing := CheckImages(plotId, folderName, imageList, tree);
    return PlotResult(true, |imageList|, [], valid, missing);
  }

  // ---------------------------------------------------------------------------
  // All plots
  // ---------------------------------------------------------------------------

  /** The counters and lists of verify_images. */
  datatype Report = Report(withImages: nat, withoutImages: nat, imageRefs: nat,
                           missing: seq<MissingImage>, valid: seq<ValidImage>, unknown: seq<UnknownSection>)

  /** The plots with at least one image. */
  function PlotsWithImages(plots: seq<Plot>): (n: nat)
    ensures n <= |plots|
    decreases |plots|
  {
    if plots == [] then 0
    else
      var last := if ParseImages(plots[|plots| - 1].monumentImages) != [] then 1 else 0;
      PlotsWithImages(plots[..|plots| - 1]) + last
  }

  /** The image names of all plots. */
  function ImageRefs(plots: seq<Plot>): nat
    decreases |plots|
  {
    if plots == [] then 0
    else ImageRefs(plots[..|plots| - 1]) + |ParseImages(plots[|plots| - 1].monumentImages)|
  }

  /** A plot with images whose section has no folder. */
  predicate UnknownPlot(p: Plot) {
    ParseImages(p.monumentImages) != [] && !Known(SectionPrefix(p.plotId))
  }

  /** The image names of the plots whose section has no folder. */
  function UnknownRefs(plots: seq<Plot>): nat
    decreases |plots|
  {
    if plots == [] then 0
    else
      var p := plots[|plots| - 1];
      UnknownRefs(plots[..|plots| - 1]) + (if UnknownPlot(p) then |ParseImages(p.monumentImages)| else 0)
  }

  /** The plots with images whose section has no folder. */
  function UnknownPlots(plots: seq<Plot>): nat
    decreases |plots|
  {
    if plots == [] then 0
    else UnknownPlots(plots[..|plots| - 1]) + (if UnknownPlot(plots[|plots| - 1]) then 1 else 0)
  }

  /** One more plot's result added to the counters and lists. */
  function AddPlot(c: Report, r: PlotResult): Report {
    Report(c.withImages + (if r.hasImages then 1 else 0), c.withoutImages + (if r.hasImages then 0 else 1),
           c.imageRefs + r.refs, c.missing + r.missing, c.valid + r.valid, c.unknown + r.unknown)
  }

  /** The counters and lists after the loop of verify_images. */
  function Verified(plots: seq<Plot>, tree: Listing): (r: Report)
    ensures r.withImages + r.withoutImages == |plots|
    decreases |plots|
  {
    if plots == [] then Report(0, 0, 0, [], [], [])
    else AddPlot(Verified(plots[..|plots| - 1], tree), CheckPlot(plots[|plots| - 1], tree))
  }

  /** plots_with_images counts the plots with images and total_image_refs
      their names. */
  lemma {:induction false} VerifiedCounts(plots: seq<Plot>, tree: Listing)
    ensures var r := Verified(plots, tree);
      r.withImages == PlotsWithImages(plots) && r.imageRefs == ImageRefs(plots)
    decreases |plots|
  {
    if plots != [] {
      VerifiedCounts(plots[..|plots| - 1], tree);
    }
  }

  /** unknown_sections has one entry per plot with images whose section has
      no folder. */
  lemma {:induction false} VerifiedUnknown(plots: seq<Plot>, tree: Listing)
    ensures |Verified(plots, tree).unknown| == UnknownPlots(plots)
    decreases |plots|
  {
    if plots != [] {
      VerifiedUnknown(plots[..|plots| - 1], tree);
    }
  }

  /** Every image name is valid, missing, or belongs to a plot of unknown
      section, exactly once. */
  lemma {:induction false} VerifiedRefs(plots: seq<Plot>, tree: Listing)
    ensures var r := Verified(plots, tree);
      |r.valid| + |r.missing| + UnknownRefs(plots) == r.imageRefs
    decreases |plots|
  {
    if plots != [] {
      VerifiedRefs(plots[..|plots| - 1], tree);
    }
  }

  lemma VerifiedStep(plots: seq<Plot>, tree: Listing, i: nat, p: PlotResult)
    requires i < |plots| && p == CheckPlot(plots[i], tree)
    ensures var a := Verified(plots[..i + 1], tree); var b := Verified(plots[..i], tree);
      if p.hasImages then
        a.withImages == b.withImages + 1 && a.withoutImages == b.withoutImages
        && a.imageRefs == b.imageRefs + p.refs && a.missing == b.missing + p.missing
        && a.valid == b.valid + p.valid && a.unknown == b.unknown + p.unknown
      else
        a.withImages == b.withImages && a.withoutImages == b.withoutImages + 1
        && a.imageRefs == b.imageRefs && a.missing == b.missing
        && a.valid == b.valid && a.unknown == b.unknown
  {
    PrefixSnoc(plots, i);
    var b := Verified(plots[..i], tree);
    AppendEmpty(b.missing);
    AppendEmpty(b.valid);
    AppendEmpty(b.unknown);
  }

  /** The loop of verify_images over the plots. */
  method CheckPlots(plots: seq<Plot>, tree: Listing) returns (r: Report)
    ensures r == Verified(plots, tree)
  {
    var plotsWithImages: nat, plotsWithoutImages: nat, totalImageRefs: nat := 0, 0, 0;
    var missingImages, validImages, unknownSections := [], [], [];
    for i := 0 to |plots|
      invariant var c := Verified(plots[..i], tree);
        c.withImages == plotsWithImages && c.withoutImages == plotsWithoutImages
        && c.imageRefs == totalImageRefs && c.missing == missingImages
        && c.valid == validImages && c.unknown == unknownSections
    {
      var p := VerifyPlot(plots[i], tree);
      VerifiedStep(plots, tree, i, p);
      if p.hasImages {
        plotsWithImages := plotsWithImages + 1;
        totalImageRefs := totalImageRefs + p.refs;
        unknownSections := unknownSections + p.unknown;
        missingImages := missingImages + p.missing;
        validImages := validImages + p.valid;
      } else {
        plotsWithoutImages := plotsWithoutImages + 1;
      }
    }
    Whole(plots);
    r := Report(plotsWithImages, plotsWithoutImages, totalImageRefs, missingImages, validImages, unknownSections);
  }

  // ---------------------------------------------------------------------------
  // The summary by section
  // ---------------------------------------------------------------------------

  /** An entry of section_stats. */
  datatype SectionStat = SectionStat(total: nat, withImages: nat, imageCount: nat)

  /** section_stats after its loop: one entry per section prefix, None
      included, counting its plots, those with images, and their images. */
  function SectionStats(plots: seq<Plot>): (m: map<Option<string>, SectionStat>)
    decreases |plots|
  {
    if plots == [] then map[]
    else
      var p := plots[|plots| - 1];
      Count(SectionStats(plots[..|plots| - 1]), SectionPrefix(p.plotId), |ParseImages(p.monumentImages)|)
  }

  /** One plot counted under its section, with its number of images. */
  function Count(m: map<Option<string>, SectionStat>, section: Option<string>, images: nat)
    : (m': map<Option<string>, SectionStat>)
    ensures m'.Keys == m.Keys + {section}
  {
    var st := if section in m then m[section] else SectionStat(0, 0, 0);
    m[section := if images > 0 then SectionStat(st.total + 1, st.withImages + 1, st.imageCount + images)
                 else st.(total := st.total + 1)]
  }

  lemma SectionStatsStep(plots: seq<Plot>, i: nat)
    requires i < |plots|
    ensures var m := SectionStats(plots[..i]);
      SectionStats(plots[..i + 1])
        == Count(m, SectionPrefix(plots[i].plotId), |ParseImages(plots[i].monumentImages)|)
  {
    PrefixSnoc(plots, i);
  }

  lemma {:induction false} SectionStatsKeys(plots: seq<Plot>)
    ensures SectionStats(plots).Keys == UnionOf(plots, PrefixOf())
    decreases |plots|
  {
    if plots != [] {
      SectionStatsKeys(plots[..|plots| - 1]);
    }
  }

  /** The sections are exactly the prefixes of the plots' ids. */
  lemma SectionKeys(plots: seq<Plot>, section: Option<string>)
    ensures section in SectionStats(plots) <==> exists i :: 0 <= i < |plots| && SectionPrefix(plots[i].plotId) == section
  {
    SectionStatsKeys(plots);
    UnionOfIff(plots, PrefixOf(), section);
  }

  function Totals(m: map<Option<string>, SectionStat>): map<Option<string>, nat> {
    map k | k in m :: m[k].total
  }

  function WithImagesBySection(m: map<Option<string>, SectionStat>): map<Option<string>, nat> {
    map k | k in m :: m[k].withImages
  }

  function ImageCounts(m: map<Option<string>, SectionStat>): map<Option<string>, nat> {
    map k | k in m :: m[k].imageCount
  }

  /** Counting one plot adds one to the totals, ... */
  lemma CountTotals(m: map<Option<string>, SectionStat>, section: Option<string>, images: nat)
    ensures SumValues(Totals(Count(m, section, images))) == SumValues(Totals(m)) + 1
  {
    var m' := Count(m, section, images);
    assert Totals(m') == Totals(m)[section := m'[section].total];
    SumUpdate(Totals(m), section, m'[section].total);
  }

  /** ... one to the plots with images when it has some, ... */
  lemma CountWithImages(m: map<Option<string>, SectionStat>, section: Option<string>, images: nat)
    ensures SumValues(WithImagesBySection(Count(m, section, images)))
      == SumValues(WithImagesBySection(m)) + (if images > 0 then 1 else 0)
  {
    var m' := Count(m, section, images);
    assert WithImagesBySection(m') == WithImagesBySection(m)[section := m'[section].withImages];
    SumUpdate(WithImagesBySection(m), section, m'[section].withImages);
  }

  /** ... and its images to the image counts. */
  lemma CountImages(m: map<Option<string>, SectionStat>, section: Option<string>, images: nat)
    ensures SumValues(ImageCounts(Count(m, section, images))) == SumValues(ImageCounts(m)) + images
  {
    var m' := Count(m, section, images);
    assert ImageCounts(m') == ImageCounts(m)[section := m'[section].imageCount];
    SumUpdate(ImageCounts(m), section, m'[section].imageCount);
  }

  /** Every plot is counted once, under its own section: the totals add up
      to the number of plots, the plots with images to plots_with_images,
      and the image counts to total_image_refs. */
  lemma {:induction false} SectionSums(plots: seq<Plot>)
    ensures var m := SectionStats(plots);
      SumValues(Totals(m)) == |plots|
      && SumValues(WithImagesBySection(m)) == PlotsWithImages(plots)
      && SumValues(ImageCounts(m)) == ImageRefs(plots)
    decreases |plots|
  {
    if plots != [] {
      var k := |plots| - 1;
      SectionSums(plots[..k]);
      var m := SectionStats(plots[..k]);
      var section := SectionPrefix(plots[k].plotId);
      var images := |ParseImages(plots[k].monumentImages)|;
      CountTotals(m, section, images);
      CountWithImages(m, section, images);
      CountImages(m, section, images);
    }
  }

  /** The loop that fills section_stats. */
  method SummariseSections(plots: seq<Plot>) returns (stats: map<Option<string>, SectionStat>)
    ensures stats == SectionStats(plots)
  {
    stats := map[];
    for i := 0 to |plots|
      invariant stats == SectionStats(plots[..i])
    {
      SectionStatsStep(plots, i);
      stats := CountPlot(stats, SectionPrefix(plots[i].plotId), ParseImages(plots[i].monumentImages));
    }
    Whole(plots);
  }

  /** The body of that loop for one plot: its section's entry is created
      when absent, then counted. */
  method CountPlot(stats: map<Option<string>, SectionStat>, section: Option<string>, imageList: seq<string>)
    returns (stats': map<Option<string>, SectionStat>)
    ensures stats' == Count(stats, section, |imageList|)
  {
    stats' := stats;
    if section !in stats' {
      stats' := stats'[section := SectionStat(0, 0, 0)];
    }
    stats' := stats'[section := stats'[section].(total := stats'[section].total + 1)];
    if imageList != [] {
      var st := stats'[section];
      stats' := stats'[section := st.(withImages := st.withImages + 1, imageCount := st.imageCount + |imageList|)];
    }
  }

  // ---------------------------------------------------------------------------
  // The result and the exit code
  // ---------------------------------------------------------------------------

  /** The dictionary verify_images returns. */
  datatype Summary = Summary(totalPlots: nat, plotsWithImages: nat, totalImageRefs: nat,
                             validImages: nat, missingImages: nat, success: bool)

  function SummaryOf(r: Report, totalPlots: nat): (s: Summary)
    ensures s.success <==> s.missingImages == 0
    ensures s.missingImages == |r.missing| && s.validImages == |r.valid|
  {
    Summary(totalPlots, r.withImages, r.imageRefs, |r.valid|, |r.missing|, |r.missing| == 0)
  }

  /** sorted() over the section keys raises a TypeError once None has to be
      compared with a string: that is, when None is a key beside any other. */
  predicate SortFails(keys: set<Option<string>>) {
    None in keys && |keys| >= 2
  }

  /** verify_images as written: the summary by section is printed in sorted
      key order before the result is returned, so the call ends in an
      exception when a plot id shorter than two characters sits beside a
      longer one. */
  function Run(plots: seq<Plot>, tree: Listing): (r: Result<Summary>)
    ensures r.Ok? ==>
      r.value.totalPlots == |plots| && (r.value.success <==> |Verified(plots, tree).missing| == 0)
  {
    if SortFails(SectionStats(plots).Keys) then Fail("TypeError: '<' not supported between NoneType and str")
    else Ok(SummaryOf(Verified(plots, tree), |plots|))
  }

  /** The process exit status: 0 on success, 1 on failure or an uncaught
      exception. */
  function ExitCode(r: Result<Summary>): (code: nat)
    ensures code == 0 <==> r.Ok? && r.value.success
  {
    if r.Ok? && r.value.success then 0 else 1
  }

  /** The script exits with 0 exactly when the report completes and no image
      is missing. */
  lemma ExitZeroIff(plots: seq<Plot>, tree: Listing)
    ensures ExitCode(Run(plots, tree)) == 0
      <==> !SortFails(SectionStats(plots).Keys) && Verified(plots, tree).missing == []
  {
  }

  /** A plot id shorter than two characters beside a longer one ... */
  predicate MixedIds(plots: seq<Plot>) {
    (exists i :: 0 <= i < |plots| && |plots[i].plotId| < 2)
    && (exists j :: 0 <= j < |plots| && |plots[j].plotId| >= 2)
  }

  /** ... is exactly what makes the report fail. */
  lemma RunFailsIff(plots: seq<Plot>, tree: Listing)
    ensures Run(plots, tree).Fail? <==> MixedIds(plots)
  {
    if MixedIds(plots) {
      MixedIdsFail(plots);
    }
    if SortFails(SectionStats(plots).Keys) {
      FailMixedIds(plots);
    }
  }

  lemma MixedIdsAt(plots: seq<Plot>, i: nat, j: nat)
    requires i < |plots| && j < |plots| && |plots[i].plotId| < 2 && |plots[j].plotId| >= 2
    ensures MixedIds(plots)
  {
  }

  lemma MixedIdsFail(plots: seq<Plot>)
    requires MixedIds(plots)
    ensures SortFails(SectionStats(plots).Keys)
  {
    var keys := SectionStats(plots).Keys;
    var i :| 0 <= i < |plots| && |plots[i].plotId| < 2;
    var j :| 0 <= j < |plots| && |plots[j].plotId| >= 2;
    var other := SectionPrefix(plots[j].plotId);
    SectionKeys(plots, None);
    SectionKeys(plots, other);
    assert other.Some?;
    Two(other);
    SubsetSize({None, other}, keys);
  }

  lemma FailMixedIds(plots: seq<Plot>)
    requires SortFails(SectionStats(plots).Keys)
    ensures MixedIds(plots)
  {
    var keys := SectionStats(plots).Keys;
    assert |keys - {None}| == |keys| - 1;
    var other :| other in keys - {None};
    SectionKeys(plots, None);
    SectionKeys(plots, other);
    var j :| 0 <= j < |plots| && SectionPrefix(plots[j].plotId) == other;
    var i :| 0 <= i < |plots| && SectionPrefix(plots[i].plotId) == None;
  }

  lemma Two(other: Option<string>)
    requires other.Some?
    ensures |{None, other}| == 2
  {
  }

  lemma SubsetSize<T>(a: set<T>, b: set<T>)
    requires a <= b
    ensures |a| <= |b|
  {
    assert b == a + (b - a);
  }

  /** A short plot id beside a regular one stops the report. */
  lemma ShortIdStopsReport(tree: Listing)
    ensures Run([Plot("A", ""), Plot("CYA1", "")], tree).Fail?
  {
    var plots := [Plot("A", ""), Plot("CYA1", "")];
    assert plots[0].plotId == "A" && plots[1].plotId == "CYA1";
    MixedIdsAt(plots, 0, 1);
    MixedIdsFail(plots);
  }

  /** verify_images as intended: the summary by section does not depend on
      the key order, and the result is always returned. */
  function RunIntended(plots: seq<Plot>, tree: Listing): (s: Summary)
    ensures s.totalPlots == |plots|
    ensures s.success <==> Verified(plots, tree).missing == []
    ensures s.plotsWithImages == PlotsWithImages(plots) && s.totalImageRefs == ImageRefs(plots)
  {
    VerifiedCounts(plots, tree);
    SummaryOf(Verified(plots, tree), |plots|)
  }

  /** With the intended report, the exit code is 0 exactly when no image is
      missing. */
  lemma IntendedExitZeroIff(plots: seq<Plot>, tree: Listing)
    ensures ExitCode(Ok(RunIntended(plots, tree))) == 0 <==> Verified(plots, tree).missing == []
  {
  }

  /** Where the report as written completes, it returns the intended result. */
  lemma RunAgrees(plots: seq<Plot>, tree: Listing)
    requires !SortFails(SectionStats(plots).Keys)
    ensures Run(plots, tree) == Ok(RunIntended(plots, tree))
  {
  }

  /** verify_images: the loop over the plots, the summary by section, and
      the returned statistics. */
  method VerifyAll(plots: seq<Plot>, tree: Listing) returns (r: Result<Summary>)
    ensures r == Run(plots, tree)
  {
    var report := CheckPlots(plots, tree);
    var stats := SummariseSections(plots);
    if None in stats && |stats| >= 2 {
      return Fail("TypeError: '<' not supported between NoneType and str");
    }
    var missing := |report.missing|;
    r := Ok(Summary(|plots|, report.withImages, report.imageRefs, |report.valid|, missing, missing == 0));
  }
}
