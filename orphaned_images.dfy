/** scripts/match_orphaned_images.py: images in the yard folders that no plot
    of plots.csv lists, the plot each name suggests, common naming errors with
    a suggested fix, and the plan that renames files and adds images to plots.
    The folders are a Listing keyed by the bare folder names of FOLDER_MAP
    ("OICA Church Yard" and so on), all of them under IMAGES_DIR. */
module OrphanedImages {
  import opened Wrappers
  import opened Text
  import opened Collections
  import opened Records

  /** FOLDER_MAP.items(): section code and folder name, in the dict's order. */
  const FolderItems: seq<(string, string)> :=
    [("CY", "OICA Church Yard"), ("IT", "OICA Intervale Terrace"), ("NY", "OICA New Yard"),
     ("OY", "OICA Old Yard"), ("UT", "OICA Upper Terrace")]

  // ---------------------------------------------------------------------------
  // extract_plot_from_filename
  // ---------------------------------------------------------------------------

  /** filename.rsplit('.', 1)[0]: the text before the last dot, or all of it. */
  function Stem(filename: string): (r: string)
    ensures '.' !in filename ==> r == filename
    ensures '.' in filename ==>
      (|r| < |filename| && filename[|r|] == '.' && r == filename[..|r|] && '.' !in filename[|r| + 1..])
  {
    match LastIndexOf(filename, '.')
    case None => filename
    case Some(i) => filename[..i]
  }

  /** `[A-Z]{3}\d` at the start of s. */
  predicate PlotIdStart(s: string) {
    |s| >= 4 && IsUpper(s[0]) && IsUpper(s[1]) && IsUpper(s[2]) && IsDigit(s[3])
  }

  /** re.match(r'^([A-Z]{2}[A-Z]\d+)', Upper(stem)): three letters and the
      whole digit run after them. */
  function ExtractPlot(filename: string): (r: Option<string>)
    ensures r.Some? <==> PlotIdStart(Upper(Stem(filename)))
    ensures r.Some? ==> var u := Upper(Stem(filename)); var n := |r.value|;
      4 <= n <= |u| && r.value == u[..n] && AllDigits(u[3..n]) && (n == |u| || !IsDigit(u[n]))
  {
    var u := Upper(Stem(filename));
    if PlotIdStart(u) then Some(u[..DigitRun(u, 3)]) else None
  }

  /** The stem of a name with an extension is what precedes the last dot. */
  lemma LastDotAfter(a: string, ext: string)
    requires '.' !in ext
    ensures Stem(a + "." + ext) == a
    ensures LastIndexOf(a + "." + ext, '.') == Some(|a|)
  {
    var s := a + "." + ext;
    assert s[|a| + 1..] == ext && s[..|a|] == a;
    LastIndexOfIs(s, '.', |a|);
  }

  /** For an upper-case stem, the plot is the stem up to the end of the digit
      run after its three letters. */
  lemma ExtractOf(stem: string, ext: string, n: nat)
    requires '.' !in ext && Upper(stem) == stem
    requires 4 <= n <= |stem| && PlotIdStart(stem) && AllDigits(stem[3..n]) && (n == |stem| || !IsDigit(stem[n]))
    ensures ExtractPlot(stem + "." + ext) == Some(stem[..n])
  {
    LastDotAfter(stem, ext);
    DigitRunIs(stem, 3, n);
  }

  /** The examples of the docstring. */
  lemma ExtractExample1()
    ensures ExtractPlot("UTC4-1.JPG") == Some("UTC4")
  {
    assert "UTC4-1.JPG" == "UTC4-1" + "." + "JPG";
    assert Upper("UTC4-1") == "UTC4-1";
    assert AllDigits("UTC4-1"[3..4]);
    ExtractOf("UTC4-1", "JPG", 4);
    assert "UTC4-1"[..4] == "UTC4";
    assert ExtractPlot("UTC4-1" + "." + "JPG") == Some("UTC4");
  }

  lemma ExtractExample2()
    ensures ExtractPlot("NYC4-1M.JPG") == Some("NYC4")
  {
    assert "NYC4-1M.JPG" == "NYC4-1M" + "." + "JPG";
    assert Upper("NYC4-1M") == "NYC4-1M";
    assert AllDigits("NYC4-1M"[3..4]);
    ExtractOf("NYC4-1M", "JPG", 4);
    assert "NYC4-1M"[..4] == "NYC4";
    assert ExtractPlot("NYC4-1M" + "." + "JPG") == Some("NYC4");
  }

  lemma ExtractExample3()
    ensures ExtractPlot("NYG2-VP.JPG") == Some("NYG2")
  {
    assert "NYG2-VP.JPG" == "NYG2-VP" + "." + "JPG";
    assert Upper("NYG2-VP") == "NYG2-VP";
    assert AllDigits("NYG2-VP"[3..4]);
    ExtractOf("NYG2-VP", "JPG", 4);
    assert "NYG2-VP"[..4] == "NYG2";
    assert ExtractPlot("NYG2-VP" + "." + "JPG") == Some("NYG2");
  }

  /** A lower-case name gives the same plot, upper-cased. */
  lemma ExtractExample4()
    ensures ExtractPlot("utc12-1.jpg") == Some("UTC12")
  {
    Example4Parts();
    LastDotAfter("utc12-1", "jpg");
    DigitRunIs("UTC12-1", 3, 5);
  }

  lemma Example4Parts()
    ensures "utc12-1.jpg" == "utc12-1" + "." + "jpg"
    ensures Upper("utc12-1") == "UTC12-1"
    ensures PlotIdStart("UTC12-1") && AllDigits("UTC12-1"[3..5]) && !IsDigit("UTC12-1"[5])
    ensures "UTC12-1"[..5] == "UTC12"
  {
  }

  // ---------------------------------------------------------------------------
  // detect_naming_errors
  // ---------------------------------------------------------------------------

  /** (has_error, suggested_fix, error_description) */
  datatype NamingCheck = NamingCheck(hasError: bool, suggested: Option<string>, description: Option<string>)

  predicate HasUpper(s: string) { exists k :: 0 <= k < |s| && IsUpper(s[k]) }
  predicate HasLower(s: string) { exists k :: 0 <= k < |s| && IsLower(s[k]) }

  /** Rule 2: a jpg extension that is neither JPG nor jpg, with both cases. */
  predicate MixedCaseExtension(ext: string) {
    Lower(ext) == "jpg" && ext != "JPG" && ext != "jpg" && HasUpper(ext) && HasLower(ext)
  }

  /** The end of the digit run of re.match(r'^([A-Z]{2}[A-Z]\d+)(\d)', name),
      case-sensitive; the run needs two digits, the last one being group 2. */
  function MissingDashRun(name: string): (r: Option<nat>)
    ensures r.Some? ==>
      (5 <= r.value <= |name| && PlotIdStart(name) && AllDigits(name[3..r.value]) && (r.value == |name| || !IsDigit(name[r.value])))
  {
    if PlotIdStart(name) && DigitRun(name, 3) >= 5 then Some(DigitRun(name, 3)) else None
  }

  /** Rule 3: no dash in the stem, and the match above. */
  predicate MissingDash(name: string) { MissingDashRun(name).Some? && '-' !in name }

  /** The error descriptions, in rule order. */
  function ErrorList(rule1: bool, rule2: bool, rule3: bool): seq<string>
  {
    (if rule1 then ["Extra dot before dash"] else [])
    + (if rule2 then ["Mixed case extension"] else [])
    + (if rule3 then ["Missing dash after plot ID"] else [])
  }

  /** detect_naming_errors. Fails when the name has no dot, where the unpacking
      of rsplit raises. Each rule that fires replaces the suggestion: rules 2
      and 3 rebuild it from the original stem. */
  function DetectNamingErrors(filename: string): (r: Result<NamingCheck>)
    ensures r.Fail? <==> '.' !in filename
  {
    match LastIndexOf(filename, '.')
    case None => Fail("ValueError: not enough values to unpack")
    case Some(i) => Ok(CheckName(filename, filename[..i], filename[i + 1..]))
  }

  /** The three rules on a filename split at its last dot into name and ext. */
  function CheckName(filename: string, name: string, ext: string): (r: NamingCheck)
    ensures var rules := ErrorList(Contains(filename, ".-"), MixedCaseExtension(ext), MissingDash(name));
      (r == NamingCheck(false, None, None) <==> rules == [])
      && (r.hasError <==> rules != [])
      && (rules != [] ==> r.description == Some(Join("; ", rules)))
    ensures MissingDash(name) ==>
      var e := MissingDashRun(name).value; r.suggested == Some(name[..e - 1] + "-" + name[e - 1..] + "." + ext)
    ensures !MissingDash(name) && MixedCaseExtension(ext) ==> r.suggested == Some(name + ".JPG")
    ensures !MissingDash(name) && !MixedCaseExtension(ext) && Contains(filename, ".-") ==>
      r.suggested == Some(ReplaceAll(filename, ".-", "-"))
  {
    var rule1 := Contains(filename, ".-");
    var rule2 := MixedCaseExtension(ext);
    var rule3 := MissingDash(name);
    var errors := ErrorList(rule1, rule2, rule3);
    RulesFire(rule1, rule2, rule3);
    if errors == [] then NamingCheck(false, None, None)
    else NamingCheck(true, Some(Suggestion(filename, name, ext)), Some(Join("; ", errors)))
  }

  /** Some description is listed exactly when some rule fires. */
  lemma RulesFire(rule1: bool, rule2: bool, rule3: bool)
    ensures ErrorList(rule1, rule2, rule3) == [] <==> !rule1 && !rule2 && !rule3
  {
    var e := ErrorList(rule1, rule2, rule3);
    if rule1 { assert e[0] == "Extra dot before dash"; }
    else if rule2 { assert e[0] == "Mixed case extension"; }
    else if rule3 { assert e[0] == "Missing dash after plot ID"; }
  }

  /** The suggestion as the script builds it: it starts as the filename, and
      each rule that fires overwrites it, in rule order. So the last rule that
      fires decides it, and the earlier fixes are dropped. */
  function Suggestion(filename: string, name: string, ext: string): (r: string)
    ensures MissingDash(name) ==>
      var e := MissingDashRun(name).value; r == name[..e - 1] + "-" + name[e - 1..] + "." + ext
    ensures !MissingDash(name) && MixedCaseExtension(ext) ==> r == name + ".JPG"
    ensures !MissingDash(name) && !MixedCaseExtension(ext) ==>
      r == if Contains(filename, ".-") then ReplaceAll(filename, ".-", "-") else filename
  {
    var afterRule1 := if Contains(filename, ".-") then ReplaceAll(filename, ".-", "-") else filename;
    var afterRule2 := if MixedCaseExtension(ext) then name + ".JPG" else afterRule1;
    if MissingDash(name) then
      var e := MissingDashRun(name).value;
      name[..e - 1] + "-" + name[e - 1..] + "." + ext
    else afterRule2
  }

  /** A filename with an extension is checked on the parts around its last dot. */
  lemma DetectSplit(name: string, ext: string)
    requires '.' !in ext
    ensures DetectNamingErrors(name + "." + ext) == Ok(CheckName(name + "." + ext, name, ext))
  {
    LastDotAfter(name, ext);
    var f := name + "." + ext;
    assert f[..|name|] == name && f[|name| + 1..] == ext;
  }

  /** The fix for a missing dash puts the dash before the last digit of the
      run, so the suggested plot of the fixed name is the stem up to there. */
  lemma MissingDashFix(name: string, ext: string)
    requires '.' !in ext && MissingDash(name)
    ensures var e := MissingDashRun(name).value; var fixed := name[..e - 1] + "-" + name[e - 1..] + "." + ext;
      DetectNamingErrors(name + "." + ext).value.suggested == Some(fixed)
      && ExtractPlot(fixed) == Some(name[..e - 1])
  {
    DetectSplit(name, ext);
    FixedNamePlot(name, ext);
  }

  lemma FixedNamePlot(name: string, ext: string)
    requires '.' !in ext && MissingDash(name)
    ensures var e := MissingDashRun(name).value;
      ExtractPlot(name[..e - 1] + "-" + name[e - 1..] + "." + ext) == Some(name[..e - 1])
  {
    var e := MissingDashRun(name).value;
    var stem' := name[..e - 1] + "-" + name[e - 1..];
    LastDotAfter(stem', ext);
    var u := Upper(stem');
    DashedUpper(name, e);
    DigitRunAt(u, 3, e - 1);
    assert Upper(Stem(stem' + "." + ext)) == u;
    assert ExtractPlot(stem' + "." + ext) == Some(u[..e - 1]);
  }

  /** The stem with the dash inserted before the last digit: upper-casing
      keeps the plot id and the digits before the dash. */
  lemma DashedUpper(name: string, e: nat)
    requires 5 <= e <= |name| && PlotIdStart(name) && AllDigits(name[3..e])
    ensures var u := Upper(name[..e - 1] + "-" + name[e - 1..]);
      e - 1 < |u| && u[..e - 1] == name[..e - 1] && u[e - 1] == '-' && PlotIdStart(u)
      && forall k :: 3 <= k < e - 1 ==> IsDigit(u[k])
  {
    var stem' := name[..e - 1] + "-" + name[e - 1..];
    var u := Upper(stem');
    forall k | 0 <= k < e - 1 ensures u[k] == name[k] && (3 <= k ==> IsDigit(u[k])) {
      assert stem'[k] == name[k];
      if k >= 3 { assert name[k] == name[3..e][k - 3]; }
    }
  }

  /** No ".-" in a string with no dot followed by a dash. */
  lemma {:induction false} NoDotDashIn(s: string)
    requires forall i :: 0 <= i < |s| - 1 ==> s[i] != '.' || s[i + 1] != '-'
    ensures !Contains(s, ".-")
    decreases |s|
  {
    if s != [] {
      if |s| >= 2 {
        assert s[..2][0] == s[0] && s[..2][1] == s[1];
      }
      var t := s[1..];
      NoDotDashIn(t);
    }
  }

  lemma NoDashIn(s: string)
    requires '-' !in s
    ensures !Contains(s, ".-")
  {
    forall j | 1 <= j < |s| ensures s[j] != '-' {
      assert s[j] in s;
    }
    NoDotDashIn(s);
  }

  /** A dot before the dash is dropped. */
  lemma DetectExtraDot()
    ensures DetectNamingErrors("UTC4.-1.JPG") == Ok(NamingCheck(true, Some("UTC4-1.JPG"), Some("Extra dot before dash")))
  {
    ExtraDotSplit();
    ExtraDotRules();
    DotDashDropped();
    assert ErrorList(true, false, false) == ["Extra dot before dash"];
  }

  lemma ExtraDotSplit()
    ensures DetectNamingErrors("UTC4.-1.JPG") == Ok(CheckName("UTC4.-1.JPG", "UTC4.-1", "JPG"))
  {
    assert "UTC4.-1.JPG" == "UTC4.-1" + "." + "JPG";
    DetectSplit("UTC4.-1", "JPG");
  }

  lemma ExtraDotRules()
    ensures Contains("UTC4.-1.JPG", ".-") && !MixedCaseExtension("JPG") && !MissingDash("UTC4.-1")
  {
    ContainsAt("UTC4.-1.JPG", ".-", 4);
    UpperJpg();
    assert "UTC4.-1"[5] == '-';
  }

  lemma DotDashDropped()
    ensures ReplaceAll("UTC4.-1.JPG", ".-", "-") == "UTC4-1.JPG"
  {
    assert "UTC4.-1.JPG" == "UTC4" + ".-" + "1.JPG";
    ReplaceFirst("UTC4", "1.JPG", ".-", "-");
    NoDotDashIn("1.JPG");
    ReplaceAbsent("1.JPG", ".-", "-");
    DotDashRejoined();
  }

  lemma DotDashRejoined()
    ensures "UTC4" + "-" + "1.JPG" == "UTC4-1.JPG"
  {
  }

  /** A well-formed name has no error. */
  lemma DetectNoError()
    ensures DetectNamingErrors("UTC4-1.JPG") == Ok(NamingCheck(false, None, None))
  {
    assert "UTC4-1.JPG" == "UTC4-1" + "." + "JPG";
    DetectSplit("UTC4-1", "JPG");
    NoRuleFires();
  }

  lemma NoRuleFires()
    ensures !Contains("UTC4-1.JPG", ".-") && !MixedCaseExtension("JPG") && !MissingDash("UTC4-1")
  {
    NoDotDashIn("UTC4-1.JPG");
    UpperJpg();
    assert "UTC4-1"[4] == '-';
  }

  lemma UpperJpg()
    ensures !MixedCaseExtension("JPG")
  {
    assert !HasLower("JPG");
  }

  /** A name without a dot makes the unpacking fail. */
  lemma DetectNoDot()
    ensures DetectNamingErrors("README").Fail?
  {
    assert forall k :: 0 <= k < |"README"| ==> "README"[k] != '.';
  }

  /** A missing dash: NYC41M.JPG becomes NYC4-1M.JPG. */
  lemma DetectMissingDash()
    ensures DetectNamingErrors("NYC41M.JPG") == Ok(NamingCheck(true, Some("NYC4-1M.JPG"), Some("Missing dash after plot ID")))
  {
    MissingDashSplit();
    MissingDashNoDash();
    NoDashIn("NYC41M.JPG");
    UpperJpg();
    MissingDashRule();
    MissingDashText();
  }

  lemma MissingDashText()
    ensures Join("; ", ErrorList(false, false, true)) == "Missing dash after plot ID"
  {
    AfterEmpty(["Missing dash after plot ID"]);
  }


  lemma MissingDashNoDash()
    ensures '-' !in "NYC41M.JPG"
  {
  }

  lemma MissingDashSplit()
    ensures DetectNamingErrors("NYC41M.JPG") == Ok(CheckName("NYC41M.JPG", "NYC41M", "JPG"))
  {
    assert "NYC41M.JPG" == "NYC41M" + "." + "JPG";
    DetectSplit("NYC41M", "JPG");
  }

  lemma MissingDashRule()
    ensures MissingDash("NYC41M") && Suggestion("NYC41M.JPG", "NYC41M", "JPG") == "NYC4-1M.JPG"
  {
    var name := "NYC41M";
    assert AllDigits(name[3..5]);
    DigitRunIs(name, 3, 5);
    assert forall k :: 0 <= k < |name| ==> name[k] != '-';
    assert name[..4] + "-" + name[4..] + "." + "JPG" == "NYC4-1M.JPG";
  }

  /** Fixes are not composed: when the extension is mixed case and no dash is
      missing, the suggestion is the stem with `.JPG`, whether or not the name
      also has a dot before a dash. Both errors are then reported, but the
      suggestion keeps that dot. */
  lemma FixesNotComposed(name: string, ext: string)
    requires '.' !in ext && MixedCaseExtension(ext) && !MissingDash(name)
    ensures var r := DetectNamingErrors(name + "." + ext);
      r.Ok? && r.value.hasError && r.value.suggested == Some(name + ".JPG")
    ensures Contains(name, ".-") ==>
      DetectNamingErrors(name + "." + ext).value.description == Some("Extra dot before dash; Mixed case extension")
      && Contains(name + ".JPG", ".-")
  {
    DetectSplit(name, ext);
    if Contains(name, ".-") {
      ContainsSomewhere(name, ".-");
      var i: nat :| OccursAt(name, ".-", i);
      assert (name + "." + ext)[i..i + 2] == name[i..i + 2];
      ContainsAt(name + "." + ext, ".-", i);
      assert (name + ".JPG")[i..i + 2] == name[i..i + 2];
      ContainsAt(name + ".JPG", ".-", i);
      TwoRulesText();
    }
  }

  /** The two-rule example: `UTC4.-1.jPg` is reported for both errors and
      `UTC4.-1.JPG` is suggested. */
  lemma TwoRulesExample()
    ensures DetectNamingErrors("UTC4.-1.jPg")
      == Ok(NamingCheck(true, Some("UTC4.-1.JPG"), Some("Extra dot before dash; Mixed case extension")))
  {
    TwoRulesSplit();
    TwoRules();
    TwoRulesText();
  }

  lemma TwoRulesText()
    ensures Join("; ", ErrorList(true, true, false)) == "Extra dot before dash; Mixed case extension"
  {
    Pair("Extra dot before dash", "Mixed case extension");
    JoinPair("; ", "Extra dot before dash", "Mixed case extension");
  }

  lemma TwoRulesSplit()
    ensures DetectNamingErrors("UTC4.-1.jPg") == Ok(CheckName("UTC4.-1.jPg", "UTC4.-1", "jPg"))
  {
    assert "UTC4.-1.jPg" == "UTC4.-1" + "." + "jPg";
    DetectSplit("UTC4.-1", "jPg");
  }

  lemma TwoRules()
    ensures Contains("UTC4.-1.jPg", ".-") && MixedCaseExtension("jPg") && !MissingDash("UTC4.-1")
    ensures Suggestion("UTC4.-1.jPg", "UTC4.-1", "jPg") == "UTC4.-1.JPG"
  {
    ContainsAt("UTC4.-1.jPg", ".-", 4);
    assert IsUpper("jPg"[1]) && IsLower("jPg"[0]);
    assert Lower("jPg") == "jpg";
    assert "UTC4.-1"[5] == '-';
    assert "UTC4.-1" + ".JPG" == "UTC4.-1.JPG";
  }

  // ---------------------------------------------------------------------------
  // find_orphaned_images
  // ---------------------------------------------------------------------------

  /** Path(name).suffix: from the last dot, unless the dot is first or last. */
  function PathSuffix(name: string): (r: string)
    ensures r != [] ==> r[0] == '.' && '.' in name
  {
    match LastIndexOf(name, '.')
    case None => ""
    case Some(i) => if 0 < i < |name| - 1 then name[i..] else ""
  }

  /** img_path.suffix.lower() in ['.jpg', '.jpeg', '.png', '.gif'] */
  predicate IsImageFile(name: string) {
    var x := Lower(PathSuffix(name));
    x == ".jpg" || x == ".jpeg" || x == ".png" || x == ".gif"
  }

  /** The suffix of a name with a stem and an extension is the extension with its dot. */
  lemma SuffixOf(a: string, ext: string)
    requires a != [] && ext != [] && '.' !in ext
    ensures PathSuffix(a + "." + ext) == "." + ext
  {
    LastDotAfter(a, ext);
    assert (a + "." + ext)[|a|..] == "." + ext;
  }

  /** A name whose only dot is its first character has no suffix. */
  lemma HiddenHasNoSuffix(ext: string)
    requires '.' !in ext
    ensures PathSuffix("." + ext) == ""
  {
    LastDotAfter("", ext);
    assert "" + "." + ext == "." + ext;
  }

  lemma ImageFileExample1()
    ensures IsImageFile("NYC4-1M.JPG")
  {
    assert "NYC4-1M.JPG" == "NYC4-1M" + "." + "JPG";
    SuffixOf("NYC4-1M", "JPG");
    assert Lower(".JPG") == ".jpg";
  }

  lemma ImageFileExample2()
    ensures !IsImageFile(".jpg")
  {
    HiddenHasNoSuffix("jpg");
  }

  lemma ImageFileExample3()
    ensures !IsImageFile("notes.txt")
  {
    assert "notes.txt" == "notes" + "." + "txt";
    SuffixOf("notes", "txt");
    assert Lower(".txt") == ".txt";
  }

  /** The (section, image) pairs one plot row references. */
  function RowRefs(p: Plot): set<(Option<string>, string)>
  {
    Tagged(SectionPrefix(p.plotId), ParseImages(p.monumentImages))
  }

  /** The pairs (prefix, img) for the images of a list. */
  function Tagged(prefix: Option<string>, images: seq<string>): set<(Option<string>, string)>
    decreases |images|
  {
    if images == [] then {} else Tagged(prefix, images[..|images| - 1]) + {(prefix, images[|images| - 1])}
  }

  lemma TaggedSnoc(prefix: Option<string>, images: seq<string>, j: nat)
    requires j < |images|
    ensures Tagged(prefix, images[..j + 1]) == Tagged(prefix, images[..j]) + {(prefix, images[j])}
  {
    PrefixSnoc(images, j);
  }

  lemma {:induction false} TaggedIff(prefix: Option<string>, images: seq<string>, section: Option<string>, img: string)
    ensures (section, img) in Tagged(prefix, images) <==> section == prefix && img in images
    decreases |images|
  {
    if images != [] {
      var init := images[..|images| - 1];
      TaggedIff(prefix, init, section, img);
      assert images == init + [images[|images| - 1]];
    }
  }

  /** referenced_images after reading plots.csv. */
  function Referenced(plots: seq<Plot>): set<(Option<string>, string)>
  {
    UnionOf(plots, RowRefs)
  }

  /** A pair is referenced exactly when some row with that section lists the image. */
  lemma ReferencedIff(plots: seq<Plot>, section: Option<string>, img: string)
    ensures (section, img) in Referenced(plots) <==>
      exists i :: 0 <= i < |plots| && SectionPrefix(plots[i].plotId) == section
                  && img in ParseImages(plots[i].monumentImages)
  {
    UnionOfIff(plots, RowRefs, (section, img));
    forall i | 0 <= i < |plots| {
      RowRefsIff(plots[i], section, img);
    }
  }

  lemma RowRefsIff(p: Plot, section: Option<string>, img: string)
    ensures (section, img) in RowRefs(p) <==> section == SectionPrefix(p.plotId) && img in ParseImages(p.monumentImages)
  {
    TaggedIff(SectionPrefix(p.plotId), ParseImages(p.monumentImages), section, img);
  }

  /** The keys of plots_dict. */
  function PlotIds(plots: seq<Plot>): set<string>
    decreases |plots|
  {
    if plots == [] then {} else PlotIds(plots[..|plots| - 1]) + {plots[|plots| - 1].plotId}
  }

  lemma {:induction false} PlotIdsIff(plots: seq<Plot>, id: string)
    ensures id in PlotIds(plots) <==> exists i :: 0 <= i < |plots| && plots[i].plotId == id
    decreases |plots|
  {
    if plots != [] {
      var init := plots[..|plots| - 1];
      PlotIdsIff(init, id);
      if id in PlotIds(init) {
        var i :| 0 <= i < |init| && init[i].plotId == id;
        assert plots[i] == init[i];
      } else if id != plots[|plots| - 1].plotId {
        forall i | 0 <= i < |plots| ensures plots[i].plotId != id {
          if i < |init| { assert plots[i] == init[i]; } else { assert i == |plots| - 1; }
        }
      }
    }
  }

  /** One entry of orphaned_matches. */
  datatype OrphanRecord = OrphanRecord(
    section: string, folder: string, filename: string,
    suggestedPlot: Option<string>, plotExists: bool,
    hasNamingError: bool, fixedFilename: Option<string>,
    fixedPlot: Option<string>, fixedPlotExists: bool,
    errorDescription: Option<string>)

  /** What apply_fixes relies on in a record: an existing plot is named, and
      a fixed plot comes with its fixed filename. */
  predicate WellFormed(r: OrphanRecord) {
    (r.plotExists ==> r.suggestedPlot.Some? && r.suggestedPlot.value != "")
    && (r.fixedPlotExists ==> r.hasNamingError && r.fixedPlot.Some? && r.fixedPlot.value != ""
                              && r.fixedFilename.Some?)
  }

  /** The record built for an orphaned image file: the plot its name suggests
      and whether plots.csv has it, the naming check, and the plot the fixed
      name suggests. */
  function RecordOf(section: string, folder: string, filename: string, plotIds: set<string>): (r: OrphanRecord)
    requires IsImageFile(filename)
    ensures r.section == section && r.folder == folder && r.filename == filename
    ensures r.suggestedPlot == ExtractPlot(filename)
    ensures r.plotExists <==> r.suggestedPlot.Some? && r.suggestedPlot.value in plotIds
    ensures r.hasNamingError == DetectNamingErrors(filename).value.hasError
    ensures r.fixedPlotExists ==> r.fixedPlot.Some? && r.fixedPlot.value in plotIds
    ensures WellFormed(r)
  {
    var suggested := ExtractPlot(filename);
    var check := DetectNamingErrors(filename).value;
    var plotExists := suggested.Some? && suggested.value in plotIds;
    var fixedPlot := if check.hasError && check.suggested.Some? && check.suggested.value != ""
                     then ExtractPlot(check.suggested.value) else None;
    var fixedPlotExists := fixedPlot.Some? && fixedPlot.value in plotIds;
    OrphanRecord(section, folder, filename, suggested, plotExists, check.hasError, check.suggested,
                 if check.hasError then fixedPlot else None, check.hasError && fixedPlotExists,
                 check.description)
  }

  /** The image files of a folder listing that no row of the section
      references, in listing order. */
  function Unreferenced(section: string, files: seq<string>, referenced: set<(Option<string>, string)>): (r: seq<string>)
    ensures forall k :: 0 <= k < |r| ==> IsImageFile(r[k]) && r[k] in files && (Some(section), r[k]) !in referenced
    decreases |files|
  {
    if files == [] then []
    else
      var f := files[|files| - 1];
      var r := Unreferenced(section, files[..|files| - 1], referenced);
      assert forall k :: 0 <= k < |r| ==> r[k] in files by {
        forall k | 0 <= k < |r| ensures r[k] in files {
          var j :| 0 <= j < |files| - 1 && files[..|files| - 1][j] == r[k];
          assert files[j] == r[k];
        }
      }
      r + (if IsImageFile(f) && (Some(section), f) !in referenced then [f] else [])
  }

  /** Every image file of the listing that is not referenced is kept. */
  lemma {:induction false} UnreferencedComplete(section: string, files: seq<string>,
      referenced: set<(Option<string>, string)>, k: nat)
    requires k < |files| && IsImageFile(files[k]) && (Some(section), files[k]) !in referenced
    ensures files[k] in Unreferenced(section, files, referenced)
    decreases |files|
  {
    if k < |files| - 1 {
      var init := files[..|files| - 1];
      assert init[k] == files[k];
      UnreferencedComplete(section, init, referenced, k);
    }
  }

  predicate AllImageFiles(names: seq<string>) {
    forall k :: 0 <= k < |names| ==> IsImageFile(names[k])
  }

  /** One record per name. */
  function RecordsOf(section: string, folder: string, names: seq<string>, plotIds: set<string>): seq<OrphanRecord>
    requires AllImageFiles(names)
  {
    seq(|names|, k requires 0 <= k < |names| => RecordOf(section, folder, names[k], plotIds))
  }

  lemma RecordsSnoc(section: string, folder: string, names: seq<string>, f: string, plotIds: set<string>)
    requires AllImageFiles(names) && IsImageFile(f)
    ensures AllImageFiles(names + [f])
    ensures RecordsOf(section, folder, names + [f], plotIds)
            == RecordsOf(section, folder, names, plotIds) + [RecordOf(section, folder, f, plotIds)]
  {
    var l := names + [f];
    assert forall k :: 0 <= k < |names| ==> l[k] == names[k];
    var L := RecordsOf(section, folder, l, plotIds);
    var R := RecordsOf(section, folder, names, plotIds) + [RecordOf(section, folder, f, plotIds)];
    forall k | 0 <= k < |L| ensures L[k] == R[k] {
      RecordsAt(section, folder, l, plotIds, k);
      if k < |names| {
        RecordsAt(section, folder, names, plotIds, k);
      }
    }
    SameElements(L, R);
  }

  lemma RecordsAt(section: string, folder: string, names: seq<string>, plotIds: set<string>, k: nat)
    requires AllImageFiles(names) && k < |names|
    ensures |RecordsOf(section, folder, names, plotIds)| == |names|
    ensures RecordsOf(section, folder, names, plotIds)[k] == RecordOf(section, folder, names[k], plotIds)
  {
  }

  /** The orphans of one folder, in listing order. */
  function FolderOrphans(section: string, folder: string, files: seq<string>, plotIds: set<string>,
                         referenced: set<(Option<string>, string)>): seq<OrphanRecord>
  {
    var names := Unreferenced(section, files, referenced);
    RecordsOf(section, folder, names, plotIds)
  }

  /** The orphans of all existing folders of `sections`, in order. */
  function AllOrphans(sections: seq<(string, string)>, tree: Listing, plotIds: set<string>,
                      referenced: set<(Option<string>, string)>): seq<OrphanRecord>
    decreases |sections|
  {
    if sections == [] then []
    else
      var s := sections[|sections| - 1];
      AllOrphans(sections[..|sections| - 1], tree, plotIds, referenced)
        + (if s.1 in tree then FolderOrphans(s.0, s.1, tree[s.1], plotIds, referenced) else [])
  }

  /** Reading plots.csv: the keys of plots_dict and referenced_images. */
  method ReadPlots(plots: seq<Plot>) returns (plotIds: set<string>, referenced: set<(Option<string>, string)>)
    ensures plotIds == PlotIds(plots)
    ensures referenced == Referenced(plots)
  {
    plotIds, referenced := {}, {};
    for i := 0 to |plots|
      invariant plotIds == PlotIds(plots[..i])
      invariant referenced == Referenced(plots[..i])
    {
      var plot := plots[i];
      ReadSnoc(plots, i);
      plotIds := plotIds + {plot.plotId};
      referenced := AddRefs(referenced, plot);
    }
    Whole(plots);
  }

  lemma ReadSnoc(plots: seq<Plot>, i: nat)
    requires i < |plots|
    ensures PlotIds(plots[..i + 1]) == PlotIds(plots[..i]) + {plots[i].plotId}
    ensures Referenced(plots[..i + 1]) == Referenced(plots[..i]) + RowRefs(plots[i])
  {
    PrefixSnoc(plots, i);
  }

  /** The images of one row added to referenced_images. */
  method AddRefs(referenced: set<(Option<string>, string)>, plot: Plot) returns (r: set<(Option<string>, string)>)
    ensures r == referenced + RowRefs(plot)
  {
    var images := ParseImages(plot.monumentImages);
    var prefix := SectionPrefix(plot.plotId);
    r := referenced;
    for j := 0 to |images|
      invariant r == referenced + Tagged(prefix, images[..j])
    {
      TaggedSnoc(prefix, images, j);
      r := r + {(prefix, images[j])};
    }
    Whole(images);
  }

  /** The loop over one folder's files. */
  method FolderScan(section: string, folder: string, files: seq<string>, plotIds: set<string>,
                    referenced: set<(Option<string>, string)>) returns (orphans: seq<OrphanRecord>)
    ensures orphans == FolderOrphans(section, folder, files, plotIds, referenced)
  {
    orphans := [];
    for j := 0 to |files|
      invariant orphans == FolderOrphans(section, folder, files[..j], plotIds, referenced)
    {
      var filename := files[j];
      PrefixSnoc(files, j);
      if IsImageFile(filename) && (Some(section), filename) !in referenced {
        RecordsSnoc(section, folder, Unreferenced(section, files[..j], referenced), filename, plotIds);
        orphans := orphans + [RecordOf(section, folder, filename, plotIds)];
      }
    }
    Whole(files);
  }

  /** find_orphaned_images over the rows of plots.csv and the image folders. */
  method FindOrphanedImages(plots: seq<Plot>, tree: Listing) returns (orphans: seq<OrphanRecord>)
    ensures orphans == AllOrphans(FolderItems, tree, PlotIds(plots), Referenced(plots))
  {
    var plotIds, referenced := ReadPlots(plots);
    orphans := ScanSections(FolderItems, tree, plotIds, referenced);
  }

  /** The loop over FOLDER_MAP, skipping folders that do not exist. */
  method ScanSections(sections: seq<(string, string)>, tree: Listing, plotIds: set<string>,
                      referenced: set<(Option<string>, string)>) returns (orphans: seq<OrphanRecord>)
    ensures orphans == AllOrphans(sections, tree, plotIds, referenced)
  {
    orphans := [];
    for y := 0 to |sections|
      invariant orphans == AllOrphans(sections[..y], tree, plotIds, referenced)
    {
      var (section, folder) := sections[y];
      PrefixSnoc(sections, y);
      if folder in tree {
        var more := FolderScan(section, folder, tree[folder], plotIds, referenced);
        orphans := orphans + more;
      }
    }
    Whole(sections);
  }

  /** Every record of a folder is a file of it with an image suffix that no
      row of its section lists, and is well formed. */
  lemma FolderOrphansSound(section: string, folder: string, files: seq<string>,
      plotIds: set<string>, referenced: set<(Option<string>, string)>, i: nat)
    requires i < |FolderOrphans(section, folder, files, plotIds, referenced)|
    ensures var r := FolderOrphans(section, folder, files, plotIds, referenced)[i];
      r.section == section && r.folder == folder && r.filename in files && IsImageFile(r.filename)
      && (Some(section), r.filename) !in referenced && WellFormed(r)
  {
  }

  /** Every unreferenced image file of a folder gets a record. */
  lemma FolderOrphansComplete(section: string, folder: string, files: seq<string>,
      plotIds: set<string>, referenced: set<(Option<string>, string)>, k: nat)
    requires k < |files| && IsImageFile(files[k]) && (Some(section), files[k]) !in referenced
    ensures RecordOf(section, folder, files[k], plotIds) in FolderOrphans(section, folder, files, plotIds, referenced)
  {
    var names := Unreferenced(section, files, referenced);
    UnreferencedComplete(section, files, referenced, k);
    var j :| 0 <= j < |names| && names[j] == files[k];
    assert FolderOrphans(section, folder, files, plotIds, referenced)[j] == RecordOf(section, folder, files[k], plotIds);
  }

  /** Every record of the scan comes from an existing folder of the list, is
      an image file of it that is not referenced, and is well formed. */
  lemma {:induction false} AllOrphansSound(sections: seq<(string, string)>, tree: Listing,
      plotIds: set<string>, referenced: set<(Option<string>, string)>, i: nat)
    requires i < |AllOrphans(sections, tree, plotIds, referenced)|
    ensures var r := AllOrphans(sections, tree, plotIds, referenced)[i];
      (r.section, r.folder) in sections && r.folder in tree && r.filename in tree[r.folder]
      && IsImageFile(r.filename) && (Some(r.section), r.filename) !in referenced && WellFormed(r)
    decreases |sections|
  {
    var init := sections[..|sections| - 1];
    var s := sections[|sections| - 1];
    var prior := AllOrphans(init, tree, plotIds, referenced);
    if i < |prior| {
      AllOrphansSound(init, tree, plotIds, referenced, i);
      assert AllOrphans(sections, tree, plotIds, referenced)[i] == prior[i];
      assert WellFormed(prior[i]);
      assert (prior[i].section, prior[i].folder) in init;
    } else {
      var fo := FolderOrphans(s.0, s.1, tree[s.1], plotIds, referenced);
      assert AllOrphans(sections, tree, plotIds, referenced) == prior + fo;
      FolderOrphansSound(s.0, s.1, tree[s.1], plotIds, referenced, i - |prior|);
      ConcatIndex(prior, fo, i);
    }
  }

  /** An orphan is an image file of an existing section folder that no plot of
      that section lists; every record is well formed. */
  lemma OrphansSound(plots: seq<Plot>, tree: Listing, i: nat)
    requires i < |AllOrphans(FolderItems, tree, PlotIds(plots), Referenced(plots))|
    ensures var r := AllOrphans(FolderItems, tree, PlotIds(plots), Referenced(plots))[i];
      (r.section, r.folder) in FolderItems && r.folder in tree && r.filename in tree[r.folder]
      && IsImageFile(r.filename) && WellFormed(r)
      && !exists j :: 0 <= j < |plots| && SectionPrefix(plots[j].plotId) == Some(r.section)
                      && r.filename in ParseImages(plots[j].monumentImages)
  {
    var r := AllOrphans(FolderItems, tree, PlotIds(plots), Referenced(plots))[i];
    AllOrphansSound(FolderItems, tree, PlotIds(plots), Referenced(plots), i);
    ReferencedIff(plots, Some(r.section), r.filename);
  }

  /** Every unreferenced image file in an existing section folder is reported. */
  lemma {:induction false} OrphansComplete(sections: seq<(string, string)>, tree: Listing,
      plotIds: set<string>, referenced: set<(Option<string>, string)>, y: nat, k: nat)
    requires y < |sections| && sections[y].1 in tree && k < |tree[sections[y].1]|
    requires IsImageFile(tree[sections[y].1][k]) && (Some(sections[y].0), tree[sections[y].1][k]) !in referenced
    ensures RecordOf(sections[y].0, sections[y].1, tree[sections[y].1][k], plotIds)
            in AllOrphans(sections, tree, plotIds, referenced)
    decreases |sections|
  {
    if y < |sections| - 1 {
      var init := sections[..|sections| - 1];
      assert init[y] == sections[y];
      OrphansComplete(init, tree, plotIds, referenced, y, k);
    } else {
      FolderOrphansComplete(sections[y].0, sections[y].1, tree[sections[y].1], plotIds, referenced, k);
    }
  }

  // ---------------------------------------------------------------------------
  // apply_fixes
  // ---------------------------------------------------------------------------

  /** One entry of files_to_rename. */
  datatype Rename = Rename(folder: string, oldName: string, newName: string)

  /** The plot an orphan goes to and the name it is listed under: the fixed
      plot with the fixed name when that plot exists, else the suggested plot
      when it exists. */
  function Target(r: OrphanRecord): (t: Option<(string, string)>)
    requires WellFormed(r)
    ensures t.Some? ==> t.value.0 != ""
    ensures t.Some? <==> (r.hasNamingError && r.fixedPlotExists) || r.plotExists
  {
    if r.hasNamingError && r.fixedPlotExists then Some((r.fixedPlot.value, r.fixedFilename.value))
    else if r.plotExists then Some((r.suggestedPlot.value, r.filename))
    else None
  }

  predicate AllWellFormed(records: seq<OrphanRecord>) {
    forall i :: 0 <= i < |records| ==> WellFormed(records[i])
  }

  /** files_to_rename: the orphans moved to their fixed plot, in record order. */
  function Renames(records: seq<OrphanRecord>): seq<Rename>
    requires AllWellFormed(records)
    decreases |records|
  {
    if records == [] then []
    else
      var r := records[|records| - 1];
      Renames(records[..|records| - 1])
        + (if r.hasNamingError && r.fixedPlotExists then [Rename(r.folder, r.filename, r.fixedFilename.value)] else [])
  }

  /** The names one record adds to plot pid. */
  function Adds(r: OrphanRecord, pid: string): seq<string>
    requires WellFormed(r)
  {
    var t := Target(r);
    if t.Some? && t.value.0 == pid then [t.value.1] else []
  }

  /** plots_to_update[pid], in record order. */
  function Planned(records: seq<OrphanRecord>, pid: string): seq<string>
    requires AllWellFormed(records)
    decreases |records|
  {
    if records == [] then []
    else Planned(records[..|records| - 1], pid) + Adds(records[|records| - 1], pid)
  }

  /** A name is planned for a plot exactly when some record targets that plot
      under that name. */
  lemma {:induction false} PlannedIff(records: seq<OrphanRecord>, pid: string, x: string)
    requires AllWellFormed(records)
    ensures x in Planned(records, pid) <==> exists i :: 0 <= i < |records| && Target(records[i]) == Some((pid, x))
    decreases |records|
  {
    if records != [] {
      var init := records[..|records| - 1];
      var last := records[|records| - 1];
      assert AllWellFormed(init) by {
        forall i | 0 <= i < |init| ensures WellFormed(init[i]) { assert init[i] == records[i]; }
      }
      PlannedIff(init, pid, x);
      if x in Planned(init, pid) {
        var i :| 0 <= i < |init| && Target(init[i]) == Some((pid, x));
        assert records[i] == init[i];
      } else if Target(last) != Some((pid, x)) {
        assert x !in Adds(last, pid);
        forall i | 0 <= i < |records| ensures Target(records[i]) != Some((pid, x)) {
          if i < |init| { assert records[i] == init[i]; } else { assert i == |records| - 1; }
        }
      }
    }
  }

  /** The planning loop of apply_fixes for one record. */
  method PlanOne(plan: map<string, seq<string>>, r: OrphanRecord) returns (plan': map<string, seq<string>>, rename: Option<Rename>)
    requires WellFormed(r)
    requires forall pid :: pid in plan ==> plan[pid] != []
    ensures forall pid :: ListAt(plan', pid) == ListAt(plan, pid) + Adds(r, pid)
    ensures forall pid :: pid in plan' ==> plan'[pid] != []
    ensures rename == if r.hasNamingError && r.fixedPlotExists then Some(Rename(r.folder, r.filename, r.fixedFilename.value)) else None
  {
    var targetPlot: Option<string> := None;
    var finalFilename := r.filename;
    rename := None;
    if r.hasNamingError && r.fixedPlotExists {
      targetPlot := r.fixedPlot;
      finalFilename := r.fixedFilename.value;
      rename := Some(Rename(r.folder, r.filename, finalFilename));
    } else if r.plotExists {
      targetPlot := r.suggestedPlot;
      finalFilename := r.filename;
    }
    plan' := plan;
    if targetPlot.Some? && targetPlot.value != "" {
      var pid := targetPlot.value;
      plan' := plan[pid := ListAt(plan, pid) + [finalFilename]];
      forall p ensures ListAt(plan', p) == ListAt(plan, p) + Adds(r, p) {
        if p == pid { assert Adds(r, p) == [finalFilename]; } else { assert Adds(r, p) == []; }
      }
    } else {
      assert forall p :: Adds(r, p) == [];
    }
  }

  /** The planning loop of apply_fixes. */
  method PlanFixes(records: seq<OrphanRecord>) returns (renames: seq<Rename>, plan: map<string, seq<string>>)
    requires AllWellFormed(records)
    ensures renames == Renames(records)
    ensures forall pid :: ListAt(plan, pid) == Planned(records, pid)
    ensures forall pid :: pid in plan ==> plan[pid] != []
  {
    renames, plan := [], map[];
    for i := 0 to |records|
      invariant renames == Renames(records[..i])
      invariant forall pid :: ListAt(plan, pid) == Planned(records[..i], pid)
      invariant forall pid :: pid in plan ==> plan[pid] != []
    {
      PrefixSnoc(records, i);
      ghost var before := plan;
      var rename;
      plan, rename := PlanOne(plan, records[i]);
      if rename.Some? {
        renames := renames + [rename.value];
      }
      forall p ensures ListAt(plan, p) == Planned(records[..i + 1], p) {
        ConcatAssoc(ListAt(before, p), Planned(records[..i], p), Adds(records[i], p));
      }
    }
    Whole(records);
  }

  /** '; '.join(list(dict.fromkeys(current + new))) */
  function FixedCell(cell: string, added: seq<string>): string
  {
    Join("; ", Dedup(ParseImages(cell) + added))
  }

  /** One row of plots.csv after the update step: a planned plot gets its
      new images, every other row is written back unchanged. */
  function FixedRow(p: Plot, plan: map<string, seq<string>>): (r: Plot)
    ensures r.plotId == p.plotId
    ensures p.plotId !in plan ==> r == p
  {
    if p.plotId in plan then p.(monumentImages := FixedCell(p.monumentImages, plan[p.plotId])) else p
  }

  /** The rows of plots.csv after the update step. */
  function FixedRows(plots: seq<Plot>, plan: map<string, seq<string>>): (r: seq<Plot>)
  {
    seq(|plots|, i requires 0 <= i < |plots| => FixedRow(plots[i], plan))
  }

  lemma FixedRowsSnoc(plots: seq<Plot>, p: Plot, plan: map<string, seq<string>>)
    ensures FixedRows(plots + [p], plan) == FixedRows(plots, plan) + [FixedRow(p, plan)]
  {
    var l := plots + [p];
    assert forall k :: 0 <= k < |plots| ==> l[k] == plots[k];
  }

  /** The updated cell lists the old images first, in order, then the added
      ones, each exactly once. */
  lemma FixedCellContents(cell: string, added: seq<string>)
    requires CleanNames(added)
    ensures var l := ParseImages(FixedCell(cell, added));
      l == Dedup(ParseImages(cell) + added) && Distinct(l)
      && |Dedup(ParseImages(cell))| <= |l| && l[..|Dedup(ParseImages(cell))|] == Dedup(ParseImages(cell))
      && (forall i :: 0 <= i < |added| ==> added[i] in l)
  {
    var current := ParseImages(cell);
    ParseImagesClean(cell);
    JoinedDedup(current, added);
  }

  /** The same on the parsed list. */
  lemma JoinedDedup(current: seq<string>, added: seq<string>)
    requires CleanNames(current) && CleanNames(added)
    ensures var d := Dedup(current + added);
      ParseImages(Join("; ", d)) == d
      && |Dedup(current)| <= |d| && d[..|Dedup(current)|] == Dedup(current)
      && (forall i :: 0 <= i < |added| ==> added[i] in d)
  {
    JoinedDedupParses(current, added);
    DedupExtends(current, added);
    DedupHasAdded(current, added);
  }

  lemma JoinedDedupParses(current: seq<string>, added: seq<string>)
    requires CleanNames(current) && CleanNames(added)
    ensures ParseImages(Join("; ", Dedup(current + added))) == Dedup(current + added)
  {
    ConcatClean(current, added);
    DedupClean(current + added);
    ParseImagesOfJoin(Dedup(current + added));
  }

  lemma DedupHasAdded<T>(current: seq<T>, added: seq<T>)
    ensures forall i :: 0 <= i < |added| ==> added[i] in Dedup(current + added)
  {
    forall i | 0 <= i < |added| ensures added[i] in Dedup(current + added) {
      ConcatIndex(current, added, |current| + i);
    }
  }

  lemma ConcatClean(a: seq<string>, b: seq<string>)
    requires CleanNames(a) && CleanNames(b)
    ensures CleanNames(a + b)
  {
    forall i | 0 <= i < |a + b| ensures IsCleanName((a + b)[i]) {
      if i >= |a| { ConcatIndex(a, b, i); }
    }
  }

  lemma DedupClean(s: seq<string>)
    requires CleanNames(s)
    ensures CleanNames(Dedup(s))
  {
    var d := Dedup(s);
    forall i | 0 <= i < |d| ensures IsCleanName(d[i]) {
      var j :| 0 <= j < |s| && s[j] == d[i];
    }
  }

  /** Applying the same additions twice gives the same cell as once. */
  lemma FixedCellIdempotent(cell: string, added: seq<string>)
    requires CleanNames(added)
    ensures FixedCell(FixedCell(cell, added), added) == FixedCell(cell, added)
  {
    FixedCellContents(cell, added);
    var d := Dedup(ParseImages(cell) + added);
    DedupAbsorbs(d, added);
  }

  /** apply_fixes. A dry run returns False and changes nothing; otherwise the
      renames of the plan are performed, plots.csv is rewritten when some plot
      gets images, and the result is True. */
  method ApplyFixes(records: seq<OrphanRecord>, plots: seq<Plot>, dryRun: bool)
    returns (success: bool, plan: map<string, seq<string>>, performed: seq<Rename>, written: Option<seq<Plot>>)
    requires AllWellFormed(records)
    ensures forall pid :: ListAt(plan, pid) == Planned(records, pid)
    ensures dryRun ==> !success && performed == [] && written.None?
    ensures !dryRun ==> success && performed == Renames(records)
    ensures !dryRun ==> written == if plan == map[] then None else Some(FixedRows(plots, plan))
  {
    var renames;
    renames, plan := PlanFixes(records);
    if dryRun {
      return false, plan, [], None;
    }
    performed := renames;
    written := None;
    if plan != map[] {
      var rows := [];
      for i := 0 to |plots|
        invariant rows == FixedRows(plots[..i], plan)
      {
        var plot := plots[i];
        assert plots[..i + 1] == plots[..i] + [plot];
        FixedRowsSnoc(plots[..i], plot, plan);
        if plot.plotId in plan {
          var currentImages := ParseImages(plot.monumentImages);
          var allImages := Dedup(currentImages + plan[plot.plotId]);
          plot := plot.(monumentImages := Join("; ", allImages));
        }
        rows := rows + [plot];
      }
      Whole(plots);
      written := Some(rows);
    }
    success := true;
  }
}
