/** scripts/image_inventory.py: which images plots.csv references, under which
    section and by which plots; which image files each section's folder holds;
    the files no plot references; and the names several plots share. The
    folders are a Listing keyed by the paths the script builds under
    "Monument Images". */
module ImageInventory {
  import opened Wrappers
  import opened Text
  import opened Collections
  import opened Records
  import OrphanedImages

  /** referenced_images: section, then file name, then the plot ids that list it. */
  type Refs = map<Option<string>, map<string, seq<string>>>

  /** referenced_images.get(section, {}) */
  function SectionRefs(refs: Refs, section: Option<string>): map<string, seq<string>> {
    if section in refs then refs[section] else map[]
  }

  /** n copies of one plot id. */
  function Repeat(id: string, n: nat): (r: seq<string>)
    ensures |r| == n && forall i :: 0 <= i < n ==> r[i] == id
  {
    seq(n, _ => id)
  }

  lemma RepeatSnoc(id: string, n: nat)
    ensures Repeat(id, n + 1) == Repeat(id, n) + [id]
  {
    SameElements(Repeat(id, n + 1), Repeat(id, n) + [id]);
  }

  // ---------------------------------------------------------------------------
  // referenced_images
  // ---------------------------------------------------------------------------

  /** referenced_images[section][img].append(plot_id), with the list created
      when the name is new. */
  function AddRef(inner: map<string, seq<string>>, img: string, id: string): map<string, seq<string>>
  {
    inner[img := ListAt(inner, img) + [id]]
  }

  /** The inner loop over one plot's images. */
  function AddRefs(inner: map<string, seq<string>>, images: seq<string>, id: string): map<string, seq<string>>
    decreases |images|
  {
    if images == [] then inner
    else AddRef(AddRefs(inner, images[..|images| - 1], id), images[|images| - 1], id)
  }

  /** The inner loop appends the plot id once per occurrence of the name. */
  lemma {:induction false} AddRefsList(inner: map<string, seq<string>>, images: seq<string>, id: string, img: string)
    ensures ListAt(AddRefs(inner, images, id), img) == ListAt(inner, img) + Repeat(id, multiset(images)[img])
    decreases |images|
  {
    if images == [] {
      AppendEmpty(ListAt(inner, img));
    } else {
      var init := images[..|images| - 1];
      var last := images[|images| - 1];
      AddRefsList(inner, init, id, img);
      InitLast(images);
      assert multiset(images) == multiset(init) + multiset{last};
      if last == img {
        RepeatSnoc(id, multiset(init)[img]);
        ConcatAssoc(ListAt(inner, img), Repeat(id, multiset(init)[img]), [id]);
      }
    }
  }

  /** Every list in the map holds at least one plot id. */
  ghost predicate NonEmptyLists(inner: map<string, seq<string>>) {
    forall img :: img in inner ==> inner[img] != []
  }

  lemma {:induction false} AddRefsNonEmpty(inner: map<string, seq<string>>, images: seq<string>, id: string)
    requires NonEmptyLists(inner)
    ensures NonEmptyLists(AddRefs(inner, images, id))
    decreases |images|
  {
    if images != [] {
      AddRefsNonEmpty(inner, images[..|images| - 1], id);
    }
  }

  /** With no empty list, a name is a key exactly when its list is not empty. */
  lemma KeyIffListed(inner: map<string, seq<string>>, img: string)
    requires NonEmptyLists(inner)
    ensures img in inner <==> ListAt(inner, img) != []
  {
  }

  /** One row of plots.csv as the loop reads it: the id, its section and the
      parsed image list. */
  datatype Entry = Entry(plotId: string, section: Option<string>, images: seq<string>)

  function EntryOf(p: Plot): Entry {
    Entry(p.plotId, SectionPrefix(p.plotId), ParseImages(p.monumentImages))
  }

  function Entries(plots: seq<Plot>): (es: seq<Entry>)
    ensures |es| == |plots|
  {
    seq(|plots|, i requires 0 <= i < |plots| => EntryOf(plots[i]))
  }

  /** The (section, name) pairs a row lists. */
  function EntryRefs(): Entry -> set<(Option<string>, string)> {
    (e: Entry) => OrphanedImages.Tagged(e.section, e.images)
  }

  /** On entries or on rows, the same (section, name) pairs are listed. */
  lemma EntriesReferenced(plots: seq<Plot>)
    ensures UnionOf(Entries(plots), EntryRefs()) == OrphanedImages.Referenced(plots)
  {
    var es := Entries(plots);
    forall i | 0 <= i < |es| ensures EntryRefs()(es[i]) == OrphanedImages.RowRefs(plots[i]) {
      assert es[i] == EntryOf(plots[i]);
    }
    UnionOfSame(es, EntryRefs(), plots, OrphanedImages.RowRefs);
  }

  /** The body of the loop over plots.csv for one row: its section's entry is
      created even when it lists no image, then each image is recorded. */
  function RecordPlot(refs: Refs, e: Entry): (r: Refs)
    ensures r.Keys == refs.Keys + {e.section}
  {
    refs[e.section := AddRefs(SectionRefs(refs, e.section), e.images, e.plotId)]
  }

  /** referenced_images after the loop over plots.csv. */
  function References(es: seq<Entry>): Refs
    decreases |es|
  {
    if es == [] then map[]
    else
      RecordPlot(References(es[..|es| - 1]), es[|es| - 1])
  }

  lemma ReferencesStep(es: seq<Entry>, i: nat)
    requires i < |es|
    ensures References(es[..i + 1]) == RecordPlot(References(es[..i]), es[i])
  {
    PrefixSnoc(es, i);
  }

  /** The reference definition of a list: the ids of the rows with that
      section, in file order, each repeated as often as the row lists the name. */
  function Occurrences(es: seq<Entry>, section: Option<string>, img: string): seq<string>
    decreases |es|
  {
    if es == [] then []
    else
      var e := es[|es| - 1];
      Occurrences(es[..|es| - 1], section, img)
        + (if e.section == section then Repeat(e.plotId, multiset(e.images)[img]) else [])
  }

  /** referenced_images[section].get(img, []) */
  function Lookup(refs: Refs, section: Option<string>, img: string): seq<string> {
    ListAt(SectionRefs(refs, section), img)
  }

  /** Every list of referenced_images is the reference definition's list. */
  lemma {:induction false} ReferencesLists(es: seq<Entry>, section: Option<string>, img: string)
    ensures Lookup(References(es), section, img) == Occurrences(es, section, img)
    decreases |es|
  {
    if es != [] {
      var init := es[..|es| - 1];
      var e := es[|es| - 1];
      ReferencesLists(init, section, img);
      if e.section == section {
        AddRefsList(SectionRefs(References(init), section), e.images, e.plotId, img);
      } else {
        AppendEmpty(Occurrences(init, section, img));
      }
    }
  }

  function SectionOf(): Entry -> set<Option<string>> {
    (e: Entry) => {e.section}
  }

  lemma {:induction false} ReferencesKeys(es: seq<Entry>)
    ensures References(es).Keys == UnionOf(es, SectionOf())
    decreases |es|
  {
    if es != [] {
      ReferencesKeys(es[..|es| - 1]);
    }
  }

  /** The sections of referenced_images are the prefixes of the rows' ids,
      whether or not the row lists an image. */
  lemma ReferencesSections(plots: seq<Plot>, section: Option<string>)
    ensures section in References(Entries(plots)) <==>
      exists i :: 0 <= i < |plots| && SectionPrefix(plots[i].plotId) == section
  {
    var es := Entries(plots);
    ReferencesKeys(es);
    UnionOfIff(es, SectionOf(), section);
    assert forall i :: 0 <= i < |es| ==> (section in SectionOf()(es[i]) <==> SectionPrefix(plots[i].plotId) == section);
  }

  ghost predicate AllNonEmpty(refs: Refs) {
    forall s :: s in refs ==> NonEmptyLists(refs[s])
  }

  lemma {:induction false} ReferencesNonEmpty(es: seq<Entry>)
    ensures AllNonEmpty(References(es))
    decreases |es|
  {
    if es != [] {
      var init := es[..|es| - 1];
      var e := es[|es| - 1];
      ReferencesNonEmpty(init);
      AddRefsNonEmpty(SectionRefs(References(init), e.section), e.images, e.plotId);
    }
  }

  /** A name is recorded under a section exactly when its list is not empty. */
  lemma ReferencedIffListed(es: seq<Entry>, section: Option<string>, img: string)
    ensures var r := References(es);
      (section in r && img in r[section]) <==> Occurrences(es, section, img) != []
  {
    ReferencesLists(es, section, img);
    ReferencesNonEmpty(es);
    var r := References(es);
    if section in r {
      KeyIffListed(r[section], img);
    }
  }

  /** A list is not empty exactly when some row of that section lists the name. */
  lemma {:induction false} OccurrencesIff(es: seq<Entry>, section: Option<string>, img: string)
    ensures Occurrences(es, section, img) != [] <==>
      exists i :: 0 <= i < |es| && es[i].section == section && img in es[i].images
    decreases |es|
  {
    if es != [] {
      var init := es[..|es| - 1];
      var k := |es| - 1;
      OccurrencesIff(init, section, img);
      if Occurrences(init, section, img) != [] {
        var i :| 0 <= i < |init| && init[i].section == section && img in init[i].images;
        assert es[i] == init[i];
      } else if !(es[k].section == section && img in es[k].images) {
        forall i | 0 <= i < |es|
          ensures !(es[i].section == section && img in es[i].images)
        {
          if i < |init| { assert es[i] == init[i]; } else { assert i == k; }
        }
      }
    }
  }

  /** The loop over one plot's images. */
  method AppendIds(inner: map<string, seq<string>>, imageList: seq<string>, plotId: string)
    returns (inner': map<string, seq<string>>)
    ensures inner' == AddRefs(inner, imageList, plotId)
  {
    inner' := inner;
    for k := 0 to |imageList|
      invariant inner' == AddRefs(inner, imageList[..k], plotId)
    {
      PrefixSnoc(imageList, k);
      var img := imageList[k];
      if img !in inner' {
        inner' := inner'[img := []];
      }
      inner' := inner'[img := inner'[img] + [plotId]];
    }
    Whole(imageList);
  }

  /** The body of the loop over plots.csv. */
  method RecordPlotRefs(refs: Refs, p: Plot) returns (refs': Refs)
    ensures refs' == RecordPlot(refs, EntryOf(p))
  {
    var section := SectionPrefix(p.plotId);
    var inner: map<string, seq<string>> := map[];
    if section in refs {
      inner := refs[section];
    }
    inner := AppendIds(inner, ParseImages(p.monumentImages), p.plotId);
    refs' := refs[section := inner];
  }

  /** The loop over plots.csv that fills referenced_images. */
  method CollectReferences(plots: seq<Plot>) returns (refs: Refs)
    ensures refs == References(Entries(plots))
  {
    ghost var es := Entries(plots);
    refs := map[];
    for i := 0 to |plots|
      invariant refs == References(es[..i])
    {
      ReferencesStep(es, i);
      refs := RecordPlotRefs(refs, plots[i]);
    }
    Whole(es);
  }

  // ---------------------------------------------------------------------------
  // total_referenced
  // ---------------------------------------------------------------------------

  /** The (section, name) pairs of referenced_images. */
  function Pairs(refs: Refs): set<(Option<string>, string)> {
    set s, img | s in refs && img in refs[s] :: (s, img)
  }

  lemma PairsMember(refs: Refs, s: Option<string>, img: string)
    ensures (s, img) in Pairs(refs) <==> img in SectionRefs(refs, s)
  {
  }

  /** len(imgs) for each section. */
  function RefSizes(refs: Refs): map<Option<string>, nat> {
    map s | s in refs :: |refs[s]|
  }

  function Tag(s: Option<string>, names: set<string>): set<(Option<string>, string)> {
    set img | img in names :: (s, img)
  }

  lemma {:induction false} TagSize(s: Option<string>, names: set<string>)
    ensures |Tag(s, names)| == |names|
    decreases |names|
  {
    if names != {} {
      var x :| x in names;
      var rest := names - {x};
      TagSize(s, rest);
      assert Tag(s, names) == Tag(s, rest) + {(s, x)};
      assert (s, x) !in Tag(s, rest);
    }
  }

  /** Taking one section out of referenced_images takes out its pairs. */
  lemma PairsRemove(refs: Refs, s: Option<string>)
    requires s in refs
    ensures Pairs(refs) == Pairs(refs - {s}) + Tag(s, refs[s].Keys)
    ensures Pairs(refs - {s}) !! Tag(s, refs[s].Keys)
  {
  }

  lemma RefSizesRemove(refs: Refs, s: Option<string>)
    ensures RefSizes(refs) - {s} == RefSizes(refs - {s})
  {
  }

  /** The sum of the section sizes is the number of distinct pairs. */
  lemma {:induction false} SizesArePairs(refs: Refs)
    ensures SumValues(RefSizes(refs)) == |Pairs(refs)|
    decreases |refs|
  {
    if refs != map[] {
      var s :| s in refs;
      var rest := refs - {s};
      assert |refs.Keys - {s}| == |refs.Keys| - 1;
      SizesArePairs(rest);
      SumRemove(RefSizes(refs), s);
      RefSizesRemove(refs, s);
      TagSize(s, refs[s].Keys);
      PairsRemove(refs, s);
    }
  }

  /** The pairs of referenced_images are the pairs (section, name) some row
      lists. */
  lemma {:induction false} PairsAreListed(es: seq<Entry>)
    ensures Pairs(References(es)) == UnionOf(es, EntryRefs())
  {
    var r := References(es);
    forall x: (Option<string>, string) ensures x in Pairs(r) <==> x in UnionOf(es, EntryRefs()) {
      var (s, img) := x;
      ReferencedIffListed(es, s, img);
      OccurrencesIff(es, s, img);
      UnionOfIff(es, EntryRefs(), (s, img));
      forall i | 0 <= i < |es|
        ensures (s, img) in EntryRefs()(es[i]) <==> es[i].section == s && img in es[i].images
      {
        OrphanedImages.TaggedIff(es[i].section, es[i].images, s, img);
      }
    }
  }

  /** total_referenced: the number of distinct (section, name) pairs, sections
      without a folder included. */
  lemma TotalReferenced(plots: seq<Plot>)
    ensures SumValues(RefSizes(References(Entries(plots)))) == |OrphanedImages.Referenced(plots)|
  {
    SizesArePairs(References(Entries(plots)));
    PairsAreListed(Entries(plots));
    EntriesReferenced(plots);
  }

  // ---------------------------------------------------------------------------
  // all_images
  // ---------------------------------------------------------------------------

  /** The sections in FOLDER_MAP's order, which is also sorted order. */
  const FolderSections: seq<string> := ["CY", "IT", "NY", "OY", "UT"]

  lemma FolderSectionsKnown()
    ensures forall i :: 0 <= i < |FolderSections| ==> FolderSections[i] in FolderMap
  {
  }

  /** Every section of FOLDER_MAP appears once. */
  lemma FolderSectionsCover()
    ensures Distinct(FolderSections)
    ensures forall s :: s in FolderMap <==> s in FolderSections
  {
  }

  /** sorted(FOLDER_MAP.keys()) */
  lemma FolderSectionsSorted()
    ensures SortedStrings(FolderSections)
  {
    assert StrLt("CY", "IT") && StrLt("IT", "NY") && StrLt("NY", "OY") && StrLt("OY", "UT");
  }

  /** The image files of a folder: the names in its listing whose suffix is
      an image extension. */
  function Physical(tree: Listing, folder: string): set<string>
    requires FolderPath(folder) in tree
  {
    ImageNames(tree[FolderPath(folder)])
  }

  /** The image files among a listing's names. */
  function ImageNames(names: seq<string>): set<string>
    decreases |names|
  {
    if names == [] then {}
    else
      var n := names[|names| - 1];
      ImageNames(names[..|names| - 1]) + (if OrphanedImages.IsImageFile(n) then {n} else {})
  }

  lemma {:induction false} ImageNamesIff(names: seq<string>, n: string)
    ensures n in ImageNames(names) <==> n in names && OrphanedImages.IsImageFile(n)
    decreases |names|
  {
    if names != [] {
      InitLast(names);
      ImageNamesIff(names[..|names| - 1], n);
    }
  }

  /** all_images: for each section whose folder exists, its image files. */
  function AllImages(tree: Listing): (m: map<string, set<string>>)
    ensures forall s :: s in m <==> s in FolderMap && FolderPath(FolderMap[s]) in tree
  {
    map s | s in FolderMap && FolderPath(FolderMap[s]) in tree :: Physical(tree, FolderMap[s])
  }

  /** The loop over one folder's listing. */
  method ImageFiles(names: seq<string>) returns (files: set<string>)
    ensures files == ImageNames(names)
  {
    files := {};
    for k := 0 to |names|
      invariant files == ImageNames(names[..k])
    {
      PrefixSnoc(names, k);
      if OrphanedImages.IsImageFile(names[k]) {
        files := files + {names[k]};
      }
    }
    Whole(names);
  }

  /** The loop over FOLDER_MAP that fills all_images; a missing folder is
      skipped after a warning. */
  method ScanFolders(sections: seq<string>, tree: Listing) returns (allImages: map<string, set<string>>)
    requires forall s :: s in FolderMap <==> s in sections
    ensures allImages == AllImages(tree)
  {
    allImages := map[];
    for i := 0 to |sections|
      invariant forall s :: s in allImages <==> s in sections[..i] && FolderPath(FolderMap[s]) in tree
      invariant forall s :: s in allImages ==> s in FolderMap && allImages[s] == Physical(tree, FolderMap[s])
    {
      var section := sections[i];
      var folderName := FolderMap[section];
      PrefixSnoc(sections, i);
      if FolderPath(folderName) in tree {
        var files := ImageFiles(tree[FolderPath(folderName)]);
        allImages := allImages[section := files];
      }
    }
    Whole(sections);
  }

  function FileCounts(allImages: map<string, set<string>>): map<string, nat> {
    map s | s in allImages :: |allImages[s]|
  }

  // ---------------------------------------------------------------------------
  // The section-by-section inventory
  // ---------------------------------------------------------------------------

  /** What the inventory reports for one section. */
  datatype SectionReport =
    | MissingFolder(section: string, folder: string)
    | SectionInventory(section: string, folder: string, physical: set<string>,
                       referenced: map<string, seq<string>>, orphaned: set<string>,
                       multiRefs: map<string, seq<string>>)

  /** The names with more than one list entry. */
  function MultiRefs(sectionRefs: map<string, seq<string>>): map<string, seq<string>>
  {
    map img | img in sectionRefs && |sectionRefs[img]| > 1 :: sectionRefs[img]
  }

  /** One section of the inventory. */
  function ReportOf(section: string, refs: Refs, allImages: map<string, set<string>>): SectionReport
    requires section in FolderMap
  {
    if section !in allImages then MissingFolder(section, FolderMap[section])
    else
      var sectionImages := allImages[section];
      var sectionRefs := SectionRefs(refs, Some(section));
      SectionInventory(section, FolderMap[section], sectionImages, sectionRefs,
                       sectionImages - sectionRefs.Keys, MultiRefs(sectionRefs))
  }

  /** A section is reported missing exactly when its folder is; otherwise its
      orphans are the files it holds that have no list, and nothing else. */
  lemma ReportShape(section: string, refs: Refs, allImages: map<string, set<string>>)
    requires section in FolderMap
    ensures var r := ReportOf(section, refs, allImages);
      r.section == section && r.folder == FolderMap[section]
      && (r.MissingFolder? <==> section !in allImages)
      && (r.SectionInventory? ==>
            r.physical == allImages[section] && r.referenced == SectionRefs(refs, Some(section))
            && r.orphaned <= r.physical && r.orphaned !! r.referenced.Keys
            && r.physical <= r.orphaned + r.referenced.Keys)
  {
  }

  /** The number of orphans of each section whose folder exists. */
  function OrphanCounts(refs: Refs, allImages: map<string, set<string>>): (m: map<string, nat>)
    ensures m.Keys == allImages.Keys
    ensures forall s :: s in m ==> m[s] <= |allImages[s]|
  {
    map s | s in allImages :: |allImages[s] - SectionRefs(refs, Some(s)).Keys|
  }

  /** A missing folder adds nothing to the physical or orphan totals. */
  lemma MissingFolderCountsNothing(section: string, refs: Refs, allImages: map<string, set<string>>)
    requires section in FolderMap && section !in allImages
    ensures ReportOf(section, refs, allImages) == MissingFolder(section, FolderMap[section])
    ensures section !in FileCounts(allImages) && section !in OrphanCounts(refs, allImages)
  {
  }

  /** The body of the loop over the sections: a missing folder is reported
      and skipped; otherwise the orphans and the multi-referenced names. */
  method InventorySection(section: string, refs: Refs, allImages: map<string, set<string>>)
    returns (report: SectionReport)
    requires section in FolderMap
    ensures report == ReportOf(section, refs, allImages)
  {
    var folder := FolderMap[section];
    if section !in allImages {
      return MissingFolder(section, folder);
    }
    var sectionImages := allImages[section];
    var sectionRefs: map<string, seq<string>> := map[];
    if Some(section) in refs {
      sectionRefs := refs[Some(section)];
    }
    var orphaned := sectionImages - sectionRefs.Keys;
    var multiRefs := map img | img in sectionRefs && |sectionRefs[img]| > 1 :: sectionRefs[img];
    report := SectionInventory(section, folder, sectionImages, sectionRefs, orphaned, multiRefs);
  }

  /** The orphans a report counts: none for a missing folder. */
  function Orphans(r: SectionReport): nat {
    if r.SectionInventory? then |r.orphaned| else 0
  }

  /** total_orphaned as the loop accumulates it. */
  function OrphanTotal(reports: seq<SectionReport>): nat
    decreases |reports|
  {
    if reports == [] then 0 else OrphanTotal(reports[..|reports| - 1]) + Orphans(reports[|reports| - 1])
  }

  lemma OrphanTotalSnoc(reports: seq<SectionReport>, r: SectionReport)
    ensures OrphanTotal(reports + [r]) == OrphanTotal(reports) + Orphans(r)
  {
    Snoc(reports, r);
  }

  /** The accumulated total is the sum of the per-section orphan counts. */
  lemma {:induction false} OrphanTotalAlong(sections: seq<string>, reports: seq<SectionReport>, refs: Refs,
                                            allImages: map<string, set<string>>)
    requires |reports| == |sections|
    requires forall i :: 0 <= i < |sections| ==> sections[i] in FolderMap && reports[i] == ReportOf(sections[i], refs, allImages)
    ensures OrphanTotal(reports) == SumAlong(sections, OrphanCounts(refs, allImages))
    decreases |sections|
  {
    if sections != [] {
      var k := |sections| - 1;
      forall i | 0 <= i < k
        ensures sections[..k][i] in FolderMap && reports[..k][i] == ReportOf(sections[..k][i], refs, allImages)
      {
        assert sections[..k][i] == sections[i] && reports[..k][i] == reports[i];
      }
      OrphanTotalAlong(sections[..k], reports[..k], refs, allImages);
    }
  }

  /** The reports of the sections, in order. */
  function Reports(sections: seq<string>, refs: Refs, allImages: map<string, set<string>>): (rs: seq<SectionReport>)
    requires forall i :: 0 <= i < |sections| ==> sections[i] in FolderMap
    ensures |rs| == |sections|
  {
    seq(|sections|, i requires 0 <= i < |sections| => ReportOf(sections[i], refs, allImages))
  }

  /** The loop over the sections in sorted order. */
  method ReportSections(sections: seq<string>, refs: Refs, allImages: map<string, set<string>>)
    returns (reports: seq<SectionReport>, totalOrphaned: nat)
    requires forall i :: 0 <= i < |sections| ==> sections[i] in FolderMap
    ensures reports == Reports(sections, refs, allImages)
    ensures totalOrphaned == OrphanTotal(reports)
  {
    ghost var all := Reports(sections, refs, allImages);
    reports, totalOrphaned := [], 0;
    for i := 0 to |sections|
      invariant reports == all[..i]
      invariant totalOrphaned == OrphanTotal(reports)
    {
      var report := InventorySection(sections[i], refs, allImages);
      TakeSnoc(all, i);
      OrphanTotalSnoc(reports, report);
      if report.SectionInventory? {
        totalOrphaned := totalOrphaned + |report.orphaned|;
      }
      reports := reports + [report];
    }
    Whole(all);
  }

  // ---------------------------------------------------------------------------
  // create_inventory
  // ---------------------------------------------------------------------------

  /** The dictionary create_inventory returns, and the sections of its report. */
  datatype Inventory = Inventory(totalPhysical: nat, totalReferenced: nat, totalOrphaned: nat,
                                 sections: seq<SectionReport>)

  ghost function InventoryOf(plots: seq<Plot>, tree: Listing): Inventory {
    var refs := References(Entries(plots));
    var allImages := AllImages(tree);
    FolderSectionsKnown();
    Inventory(SumValues(FileCounts(allImages)), SumValues(RefSizes(refs)),
              SumAlong(FolderSections, OrphanCounts(refs, allImages)),
              Reports(FolderSections, refs, allImages))
  }

  /** create_inventory. */
  method CreateInventory(plots: seq<Plot>, tree: Listing) returns (r: Inventory)
    ensures r == InventoryOf(plots, tree)
  {
    var refs := CollectReferences(plots);
    FolderSectionsCover();
    var allImages := ScanFolders(FolderSections, tree);
    var totalReferenced := Total(RefSizes(refs));
    var totalPhysical := Total(FileCounts(allImages));
    FolderSectionsKnown();
    var reports, totalOrphaned := ReportSections(FolderSections, refs, allImages);
    OrphanTotalAlong(FolderSections, reports, refs, allImages);
    r := Inventory(totalPhysical, totalReferenced, totalOrphaned, reports);
  }

  /** total_referenced counts the distinct (section, name) pairs plots.csv lists. */
  lemma InventoryReferenced(plots: seq<Plot>, tree: Listing)
    ensures InventoryOf(plots, tree).totalReferenced == |OrphanedImages.Referenced(plots)|
  {
    TotalReferenced(plots);
  }

  /** No section has more orphans than files, so neither has the whole. */
  lemma OrphansWithinPhysical(plots: seq<Plot>, tree: Listing)
    ensures InventoryOf(plots, tree).totalOrphaned <= InventoryOf(plots, tree).totalPhysical
  {
    var refs := References(Entries(plots));
    var allImages := AllImages(tree);
    FolderSectionsCover();
    SumAlongLe(FolderSections, OrphanCounts(refs, allImages), FileCounts(allImages));
    SumAlongAll(FolderSections, FileCounts(allImages));
  }

  /** A section's orphans are exactly its image files that no plot of the
      section lists. */
  lemma OrphanIff(plots: seq<Plot>, tree: Listing, i: nat, img: string)
    requires i < |FolderSections|
    ensures var r := InventoryOf(plots, tree).sections[i];
      r.SectionInventory? ==>
        (img in r.orphaned <==> img in r.physical && Occurrences(Entries(plots), Some(FolderSections[i]), img) == [])
  {
    ReferencedIffListed(Entries(plots), Some(FolderSections[i]), img);
  }

  /** The same orphans as the orphaned-images script finds: image files whose
      (section, name) pair no row of plots.csv lists. */
  lemma OrphanUnreferenced(plots: seq<Plot>, tree: Listing, i: nat, img: string)
    requires i < |FolderSections|
    ensures var r := InventoryOf(plots, tree).sections[i];
      r.SectionInventory? ==>
        (img in r.orphaned <==> img in r.physical && (Some(FolderSections[i]), img) !in OrphanedImages.Referenced(plots))
  {
    PairsMember(References(Entries(plots)), Some(FolderSections[i]), img);
    PairsAreListed(Entries(plots));
    EntriesReferenced(plots);
  }

  /** A section's multi-referenced names are exactly those with more than one
      list entry; their lists are the reference definition's lists. */
  lemma MultiRefsIff(plots: seq<Plot>, tree: Listing, i: nat, img: string)
    requires i < |FolderSections|
    ensures var r := InventoryOf(plots, tree).sections[i];
      var occ := Occurrences(Entries(plots), Some(FolderSections[i]), img);
      r.SectionInventory? ==> (img in r.multiRefs <==> |occ| > 1) && (img in r.multiRefs ==> r.multiRefs[img] == occ)
  {
    var section := Some(FolderSections[i]);
    ReferencesLists(Entries(plots), section, img);
    ReferencedIffListed(Entries(plots), section, img);
  }

  /** A row that lists a name twice makes it multi-referenced on its own. */
  lemma {:induction false} ListedTwice(es: seq<Entry>, i: nat, img: string)
    requires i < |es| && multiset(es[i].images)[img] >= 2
    ensures |Occurrences(es, es[i].section, img)| >= 2
    decreases |es|
  {
    var k := |es| - 1;
    if i < k {
      assert es[i] == es[..k][i];
      ListedTwice(es[..k], i, img);
    }
  }
}
