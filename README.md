# Cemetery records maintenance scripts, modelled in Dafny

This project models the core of a cemetery-records repository: the Python
scripts that keep its CSV tables (`plots.csv`, `lots.csv`, `occupants.csv`,
veteran lists) and its monument-image folders consistent. Each script
becomes one Dafny module. The module's state is the CSV rows as datatypes,
or as `map<string, string>` where a script adds columns. An image tree is a
map from folder name to the names in that folder, in listing order. A
script's loops become methods. Each method is proved against a
specification function, and lemmas state what the script promises.

Shared modules:

- `Wrappers`: `Option` and `Result`.
- `Text`: Python's string operations over ASCII letters and digits and Unicode whitespace.
  - `strip`, `lower`, `upper`, `split`, `join`, `startswith`, `in`, `count`.
  - `int()` parsing and decimal printing.
  - Parsing a `monument_images` cell (`;`-separated names).
  - String order, used by `sorted`.
- `Collections`: generic folds, filters and maps, and the list and set helpers the proofs share.
- `Records`: the plot, lot and occupant rows and the image-tree listing.

Script modules:

| module | script |
|---|---|
| `PlotImages` | `update_plot_images.py` |
| `OrphanedImages` | `scripts/match_orphaned_images.py` |
| `Validate` | `scripts/validate_data.py` |
| `ImageInventory` | `scripts/image_inventory.py` |
| `LotStatus` | `scripts/fix_lot_status.py` |
| `CremationVault` | `scripts/update_cremation_vault_status.py` |
| `VerifyImages` | `scripts/verify_images.py` |
| `CleanupImages` | `cleanup_missing_images.py` |
| `MissingDates` | `scripts/missing_dates_report.py` |
| `VeteranColumn` | `scripts/add_veteran_column.py` |
| `VeteranSuffixes` | `scripts/fix_veteran_suffixes.py` |
| `CsvHeaders` | `scripts/fix_csv_headers.py` |

## Model

| member | source | states |
|---|---|---|
| PlotImages.MatchNewFormat | update_plot_images.py:44-47 | a match of `^([A-Z]{2})([A-Z]?\d+)-(\d+)[a-z]*([FBPV])?\.jpe?g$` puts the dash after the plot part and has at least one lot digit |
| PlotImages.MatchFound | update_plot_images.py:44-47 | what a successful match has seen is a name of the pattern's language, and group 4 never captures |
| PlotImages.ParseIffNewFormat | update_plot_images.py:44-48 | `parse_new_format_filename` returns a tuple exactly for the names the pattern describes under `re.IGNORECASE`, and None for every other name |
| PlotImages.ParseOnMatch | update_plot_images.py:50-58 | on a match the tuple holds the upper-cased yard code, the upper-cased plot id (the yard code followed by the plot suffix), the value of the lot digits, an empty image type and the file name |
| PlotImages.ImageTypeAlwaysEmpty | update_plot_images.py:44-53 | the image type is always empty: the case-blind `[a-z]*` has already taken any final F, B, P or V |
| PlotImages.PlotIdHasYardCode | update_plot_images.py:50-56 | a parsed plot id begins with its yard code |
| PlotImages.ExampleName | update_plot_images.py:6-10 | `ITC12-3F.jpg` parses to yard IT, plot ITC12, lot 3, with an empty image type rather than F |
| PlotImages.ExampleBack | update_plot_images.py:37-44 | `ITC12-3B.jpg` parses to yard IT, plot ITC12, lot 3, with an empty image type |
| PlotImages.InsertImage | update_plot_images.py:77 | inserting a name into a list ordered by sort key keeps it ordered and adds exactly that name |
| PlotImages.SortImages | update_plot_images.py:60-77 | `sort_images` returns a permutation of its input, ordered by (negated lot, type priority) |
| PlotImages.SortImagesStable | update_plot_images.py:77 | `sorted` is stable: names with the same key keep their input order |
| PlotImages.SortedLots | update_plot_images.py:60-75 | in a sorted list, new-format names precede old-format names, and lot numbers never increase from left to right |
| PlotImages.SortImagesOfSorted | update_plot_images.py:77 | sorting an already ordered list leaves it unchanged |
| PlotImages.SortedPair | update_plot_images.py:66-77 | two names whose keys are in order stay in that order |
| PlotImages.SameLotKeepsOrder | update_plot_images.py:62-72 | the docstring's "F before B" within a lot does not happen: `ITC12-3B.jpg` stays ahead of `ITC12-3F.jpg` |
| PlotImages.Merged | update_plot_images.py:150-157 | the combined list starts with the existing names and adds only incoming names; every added name differs up to case from all names before it; every incoming name is present up to case |
| PlotImages.MergedFixpoint | update_plot_images.py:150-157 | nothing is added when every incoming name is already present up to case |
| PlotImages.FirstVariants | update_plot_images.py:154-157 | the added names come from the new images and differ up to case from every existing name |
| PlotImages.MergedAdditions | update_plot_images.py:150-157 | the combined list is the existing names followed, in the new images' order, by the first case variant of each new name not yet present |
| PlotImages.Combine | update_plot_images.py:151-157 | the loop with its `existing_lower` set builds exactly the combined list |
| PlotImages.AddIfAccepted | update_plot_images.py:100-108 | one file name is appended to its plot's list exactly when it is a JPEG name, parses, and carries the folder's yard code; no other list changes |
| PlotImages.ScanFolder | update_plot_images.py:99-111 | scanning one folder appends, to each plot's list, the accepted names of that plot in listing order |
| PlotImages.ScanImages | update_plot_images.py:79-113 | a missing base folder gives an empty result; otherwise each plot's list is the accepted names of the existing yard folders, folder by folder in listing order, and no list is empty |
| PlotImages.FolderHitsSound | update_plot_images.py:99-108 | every name listed for a plot is in the folder, accepted, and parses to that plot |
| PlotImages.FolderHitsComplete | update_plot_images.py:99-108 | every accepted name of a folder is listed under its plot |
| PlotImages.ScanHitsSound | update_plot_images.py:90-108 | every found name sits in an existing yard folder whose yard code is the name's own |
| PlotImages.ScanHitsComplete | update_plot_images.py:90-108 | every accepted name in an existing yard folder is found for its plot |
| PlotImages.AcceptedIsClean | update_plot_images.py:100-108 | an accepted name has no surrounding blanks and no `;`, so it survives being joined into a cell and split back |
| PlotImages.UpdatedPlot | update_plot_images.py:139-170 | only a plot with new images can change; it changes exactly when the joined sorted list differs from the stripped cell, and then the cell holds that joined list |
| PlotImages.UpdatedCellLists | update_plot_images.py:142-169 | after the update the cell lists exactly the sorted combination of its previous images and the new ones |
| PlotImages.StoredCell | update_plot_images.py:144-169 | after the update the stripped cell is the joined refreshed list |
| PlotImages.RefreshedClean | update_plot_images.py:145-160 | a refreshed list holds only names a cell can store |
| PlotImages.RefreshedKeepsExisting | update_plot_images.py:117-118 | every image the cell already had is preserved |
| PlotImages.RefreshedHasIncoming | update_plot_images.py:150-160 | every new image is present, up to case |
| PlotImages.RefreshedOnlyThose | update_plot_images.py:150-160 | the refreshed list holds nothing but existing and new images |
| PlotImages.RefreshedStable | update_plot_images.py:150-163 | refreshing a refreshed list with the same images gives it back |
| PlotImages.UpdateIdempotent | update_plot_images.py:139-170 | updating an updated row with the same images changes nothing and counts no update |
| PlotImages.UpdatedRows | update_plot_images.py:139-170 | the loop keeps one row per input row |
| PlotImages.CountUpdated | update_plot_images.py:136-170 | `updates_made` never exceeds the number of rows |
| PlotImages.RerunChangesNothing | update_plot_images.py:115-190 | a second pass over the written rows makes no update and writes the same rows |
| PlotImages.UpdateRow | update_plot_images.py:139-170 | the loop body computes the updated row and whether it counted as an update |
| PlotImages.UpdatePlotsCsv | update_plot_images.py:115-190 | returns the updated rows and the number of updates; the rows are written unless it is a dry run |
| PlotImages.UpdatePlotImages | update_plot_images.py:192-221 | stops when no image was found or `plots.csv` is missing; otherwise it updates; rows written by a real run are a fixed point of the update |
| OrphanedImages.Stem | scripts/match_orphaned_images.py:49 | `rsplit('.', 1)[0]` is the whole name when it has no dot, else the text before the last dot |
| OrphanedImages.ExtractPlot | scripts/match_orphaned_images.py:40-56 | a plot is found exactly when the upper-cased stem starts with three letters and a digit; the plot is that prefix up to the end of the digit run |
| OrphanedImages.ExtractOf | scripts/match_orphaned_images.py:48-54 | for an upper-case stem and an extension, the plot is the stem up to the end of the digit run after its three letters |
| OrphanedImages.LastDotAfter | scripts/match_orphaned_images.py:49 | the stem of `a.ext`, where ext has no dot, is `a` |
| OrphanedImages.ExtractExample1 | scripts/match_orphaned_images.py:44 | `UTC4-1.JPG` suggests UTC4 |
| OrphanedImages.ExtractExample2 | scripts/match_orphaned_images.py:45 | `NYC4-1M.JPG` suggests NYC4 |
| OrphanedImages.ExtractExample3 | scripts/match_orphaned_images.py:46 | `NYG2-VP.JPG` suggests NYG2 |
| OrphanedImages.ExtractExample4 | scripts/match_orphaned_images.py:52 | a lower-case name gives its plot upper-cased: `utc12-1.jpg` suggests UTC12 |
| OrphanedImages.MissingDashRun | scripts/match_orphaned_images.py:80 | `^([A-Z]{2}[A-Z]\d+)(\d)` matches, case-sensitively, exactly at a run of at least two digits after three capitals |
| OrphanedImages.DetectNamingErrors | scripts/match_orphaned_images.py:58-88 | fails exactly when the name has no dot, because unpacking `rsplit` raises |
| OrphanedImages.CheckName | scripts/match_orphaned_images.py:63-88 | no rule fires exactly when the result is (False, None, None); otherwise it reports an error and the fired rules' descriptions joined by `; `; the suggestion is the dash fix when the dash is missing, else `name + ".JPG"` when the extension is mixed case, else the name with `.-` replaced by `-` |
| OrphanedImages.Suggestion | scripts/match_orphaned_images.py:64-83 | the suggestion starts as the filename and each firing rule overwrites it, so the last rule that fires decides it and earlier fixes are dropped |
| OrphanedImages.DetectSplit | scripts/match_orphaned_images.py:72 | a name is checked on the parts around its last dot |
| OrphanedImages.MissingDashFix | scripts/match_orphaned_images.py:79-83 | the missing-dash fix puts the dash before the last digit of the run, so the fixed name suggests the plot without that digit |
| OrphanedImages.FixedNamePlot | scripts/match_orphaned_images.py:82 | the fixed name suggests the stem up to the inserted dash |
| OrphanedImages.DashedUpper | scripts/match_orphaned_images.py:82 | upper-casing the dashed stem keeps the plot id, the digits and the dash |
| OrphanedImages.NoDotDashIn | scripts/match_orphaned_images.py:67 | a name with no dot directly before a dash does not contain `.-` |
| OrphanedImages.NoDashIn | scripts/match_orphaned_images.py:67 | a name without a dash does not contain `.-` |
| OrphanedImages.DetectExtraDot | scripts/match_orphaned_images.py:66-69 | `UTC4.-1.JPG` is reported as "Extra dot before dash" with fix `UTC4-1.JPG` |
| OrphanedImages.ExtraDotSplit | scripts/match_orphaned_images.py:72 | `UTC4.-1.JPG` is checked as stem `UTC4.-1` and extension `JPG` |
| OrphanedImages.ExtraDotRules | scripts/match_orphaned_images.py:66-81 | only the extra-dot rule fires on `UTC4.-1.JPG` |
| OrphanedImages.DotDashDropped | scripts/match_orphaned_images.py:68 | replacing `.-` by `-` in `UTC4.-1.JPG` gives `UTC4-1.JPG` |
| OrphanedImages.DetectNoError | scripts/match_orphaned_images.py:85-88 | a well-formed name `UTC4-1.JPG` gives (False, None, None) |
| OrphanedImages.NoRuleFires | scripts/match_orphaned_images.py:66-81 | no rule fires on `UTC4-1.JPG` |
| OrphanedImages.UpperJpg | scripts/match_orphaned_images.py:73 | an upper-case `JPG` extension is not mixed case |
| OrphanedImages.DetectNoDot | scripts/match_orphaned_images.py:72 | a name without a dot, such as `README`, makes the check fail |
| OrphanedImages.DetectMissingDash | scripts/match_orphaned_images.py:79-83 | `NYC41M.JPG` is reported as "Missing dash after plot ID" with fix `NYC4-1M.JPG` |
| OrphanedImages.MissingDashText | scripts/match_orphaned_images.py:83-86 | the description of the missing-dash rule alone |
| OrphanedImages.MissingDashNoDash | scripts/match_orphaned_images.py:81 | `NYC41M.JPG` has no dash |
| OrphanedImages.MissingDashSplit | scripts/match_orphaned_images.py:72 | `NYC41M.JPG` is checked as stem `NYC41M` and extension `JPG` |
| OrphanedImages.MissingDashRule | scripts/match_orphaned_images.py:80-82 | the missing-dash rule fires on `NYC41M`, and its suggestion is `NYC4-1M.JPG` |
| OrphanedImages.FixesNotComposed | scripts/match_orphaned_images.py:64-86 | for every name with a mixed-case extension and no missing dash the suggestion is `name + ".JPG"`; when the name also has `.-`, both errors are reported and the suggestion keeps the `.-` |
| OrphanedImages.TwoRulesExample | scripts/match_orphaned_images.py:64-88 | `UTC4.-1.jPg` reports both errors and suggests `UTC4.-1.JPG` |
| OrphanedImages.TwoRulesText | scripts/match_orphaned_images.py:86 | two descriptions are joined by `; ` in rule order |
| OrphanedImages.TwoRulesSplit | scripts/match_orphaned_images.py:72 | `UTC4.-1.jPg` is checked as stem `UTC4.-1` and extension `jPg` |
| OrphanedImages.TwoRules | scripts/match_orphaned_images.py:66-83 | on `UTC4.-1.jPg` the first two rules fire, and the second one's suggestion is kept |
| OrphanedImages.PathSuffix | scripts/match_orphaned_images.py:124 | a non-empty `Path.suffix` starts with a dot taken from the name |
| OrphanedImages.SuffixOf | scripts/match_orphaned_images.py:124 | the suffix of `a.ext` is `.ext` |
| OrphanedImages.HiddenHasNoSuffix | scripts/match_orphaned_images.py:124 | a name whose only dot comes first has no suffix |
| OrphanedImages.ImageFileExample1 | scripts/match_orphaned_images.py:124 | `NYC4-1M.JPG` is an image file |
| OrphanedImages.ImageFileExample2 | scripts/match_orphaned_images.py:124 | `.jpg` is not an image file |
| OrphanedImages.ImageFileExample3 | scripts/match_orphaned_images.py:124 | `notes.txt` is not an image file |
| OrphanedImages.TaggedIff | scripts/match_orphaned_images.py:111-112 | the pairs one row adds are its section paired with each of its images |
| OrphanedImages.RowRefsIff | scripts/match_orphaned_images.py:105-112 | a pair is referenced by a row exactly when the row's section prefix is the pair's section and the row lists the image |
| OrphanedImages.ReferencedIff | scripts/match_orphaned_images.py:99-112 | a (section, image) pair is referenced exactly when some row with that section prefix lists the image |
| OrphanedImages.PlotIdsIff | scripts/match_orphaned_images.py:104-106 | the keys of `plots_dict` are exactly the plot ids of the rows |
| OrphanedImages.ReadPlots | scripts/match_orphaned_images.py:98-112 | reading `plots.csv` yields exactly the plot ids and the referenced pairs |
| OrphanedImages.AddRefs | scripts/match_orphaned_images.py:108-112 | one row's images are added to the referenced pairs |
| OrphanedImages.RecordOf | scripts/match_orphaned_images.py:127-158 | the record names its section, folder and file, and suggests the plot extracted from the name; `plot_exists` holds exactly when that plot is in `plots.csv`; it carries the naming check's verdict; a fixed plot that exists is in `plots.csv`; the record is well formed |
| OrphanedImages.Unreferenced | scripts/match_orphaned_images.py:123-128 | only image files of the listing that their section does not reference are kept |
| OrphanedImages.UnreferencedComplete | scripts/match_orphaned_images.py:123-128 | every unreferenced image file of the listing is kept |
| OrphanedImages.RecordsAt | scripts/match_orphaned_images.py:146-158 | one record per kept name, in order |
| OrphanedImages.FolderScan | scripts/match_orphaned_images.py:123-158 | the loop over one folder's files builds exactly its orphan records |
| OrphanedImages.ScanSections | scripts/match_orphaned_images.py:117-158 | the loop over the sections skips missing folders and concatenates each folder's records in order |
| OrphanedImages.FindOrphanedImages | scripts/match_orphaned_images.py:90-166 | the result is the orphans of the `FOLDER_MAP` folders, given the rows' plot ids and referenced pairs |
| OrphanedImages.FolderOrphansSound | scripts/match_orphaned_images.py:123-158 | every record of a folder is a file of it with an image suffix that its section does not reference, and is well formed |
| OrphanedImages.FolderOrphansComplete | scripts/match_orphaned_images.py:123-158 | every unreferenced image file of a folder gets its record |
| OrphanedImages.AllOrphansSound | scripts/match_orphaned_images.py:117-158 | every record comes from an existing folder of the section list |
| OrphanedImages.OrphansSound | scripts/match_orphaned_images.py:90-158 | an orphan is an image file of an existing section folder that no plot of that section lists |
| OrphanedImages.OrphansComplete | scripts/match_orphaned_images.py:117-158 | every unreferenced image file in an existing section folder is reported |
| OrphanedImages.Target | scripts/match_orphaned_images.py:243-261 | an orphan has a target plot exactly when its fixed plot exists, or failing that its suggested plot exists; the target is never empty |
| OrphanedImages.PlannedIff | scripts/match_orphaned_images.py:242-267 | a name is planned for a plot exactly when some record targets that plot under that name |
| OrphanedImages.PlanOne | scripts/match_orphaned_images.py:243-267 | one record adds its final name to its target's list and, when its fixed plot exists, a rename to the fixed name |
| OrphanedImages.PlanFixes | scripts/match_orphaned_images.py:239-267 | the planning loop builds exactly the renames and each plot's planned names, in record order; no planned list is empty |
| OrphanedImages.FixedRow | scripts/match_orphaned_images.py:324-334 | a row keeps its plot id, and a row without planned images is unchanged |
| OrphanedImages.FixedCellContents | scripts/match_orphaned_images.py:327-334 | the new cell lists the old images first, in order and without repeats, then the added ones, each exactly once |
| OrphanedImages.JoinedDedup | scripts/match_orphaned_images.py:331-334 | the joined deduplicated list parses back to itself, keeps the current images first, and holds every added one |
| OrphanedImages.DedupHasAdded | scripts/match_orphaned_images.py:331-332 | every added image is in the deduplicated combination |
| OrphanedImages.FixedCellIdempotent | scripts/match_orphaned_images.py:327-334 | applying the same additions twice gives the same cell as applying them once |
| OrphanedImages.ApplyFixes | scripts/match_orphaned_images.py:220-346 | a dry run returns False and changes nothing; otherwise the planned renames are performed, `plots.csv` is rewritten when some plot gets images, and the result is True |
| Validate.ParsePiecesMeaning | scripts/validate_data.py:21 | the comma pieces parse exactly when each stripped piece is an integer, and then give one number per piece, in order |
| Validate.ParseAvailableLots | scripts/validate_data.py:17-21 | only a blank cell gives the empty list |
| Validate.BlankPieceFails | scripts/validate_data.py:21 | an empty or blank piece, as in `1,,2`, makes the whole cell raise |
| Validate.ParseJoinInts | scripts/fix_lot_status.py:172-173 | reading back a cell that `fix_lot_status` writes gives the numbers it wrote |
| Validate.IntParts | scripts/fix_lot_status.py:173 | one `str(n)` text per number, in order |
| Validate.IntPartsClean | scripts/fix_lot_status.py:173 | each `str(n)` text has no comma, is not blank, and parses back to n |
| Validate.JoinIntsSplit | scripts/fix_lot_status.py:173 | splitting a joined non-empty list on commas gives back the texts |
| Validate.ParsePiecesOfParts | scripts/validate_data.py:21 | the texts of a joined list parse back to its numbers |
| Validate.Entries | scripts/validate_data.py:35-37 | one parsed entry per row of `available_lots.csv`, in order |
| Validate.TableOf | scripts/validate_data.py:32-38 | the dict's keys are distinct and are exactly the keys of its lists |
| Validate.TableFail | scripts/validate_data.py:35-38 | reading fails exactly when some row's cell does not parse |
| Validate.AvailableFail | scripts/validate_data.py:32-38 | reading `available_lots.csv` raises exactly when some row's `lots_available` cell does not parse |
| Validate.TableKeys | scripts/validate_data.py:36-38 | the keys are the plot ids in order of first appearance |
| Validate.AvailableKeys | scripts/validate_data.py:32-38 | `available_lots_data` keeps each plot at the place of its first row |
| Validate.TableLastWins | scripts/validate_data.py:38 | the list kept for a plot is the parsed cell of its last row |
| Validate.LastRowWins | scripts/validate_data.py:35-38 | for a plot with several rows, the last row's cell wins |
| Validate.TableStops | scripts/validate_data.py:37 | reading stops with the ValueError of the first cell that does not parse |
| Validate.ReadAvailable | scripts/validate_data.py:32-38 | the reading loop yields the table, or the first ValueError |
| Validate.ReadEntry | scripts/validate_data.py:36-37 | one row as the reading loop sees it: its plot id, its cell, and the cell parsed by `parse_available_lots` |
| Validate.LastLot | scripts/validate_data.py:44-51 | `lots_data[lot_id]` is a row with that lot id, and it is missing exactly when no row has that id |
| Validate.LotsInIff | scripts/validate_data.py:45-52 | `lots_by_plot[plot_id]` holds exactly the rows of that plot |
| Validate.OccupantsInIff | scripts/validate_data.py:58-63 | `occupants_data[lot_id]` holds exactly the occupants of that lot, Reserved ones included |
| Validate.OccupantsInNone | scripts/validate_data.py:137 | a lot id that no occupant names has no occupants |
| Validate.NonReservedIn | scripts/validate_data.py:141 | check 2's actual occupants of a lot are the occupants that `fix_lot_status` counts |
| Validate.ReadLots | scripts/validate_data.py:44-52 | the loop over `lots.csv` leaves in `lots_data` the last row for each lot id, keyed in first-appearance order, and in `lots_by_plot` the rows of each plot |
| Validate.ReadOccupants | scripts/validate_data.py:58-63 | the loop over `occupants.csv` leaves each lot id's occupants in file order, keyed in first-appearance order |
| Validate.NumberedOf | scripts/validate_data.py:93-94 | one `int(lot_number)` attempt per lot row, in order |
| Validate.PlotMismatchesOk | scripts/validate_data.py:93-119 | the inner loop raises exactly when some lot number does not parse |
| Validate.PlotMismatchesValue | scripts/validate_data.py:93-119 | without a ValueError, the inner loop reports each lot's issue, in lot order |
| Validate.PlotCheckOk | scripts/validate_data.py:84-119 | a listed plot raises exactly when one of its lots has a number that `int()` rejects |
| Validate.PlotCheckValue | scripts/validate_data.py:84-119 | without a ValueError, a listed plot's mismatches are its issues |
| Validate.Check1OfOk | scripts/validate_data.py:83-119 | the loop over plots raises exactly when some plot raises |
| Validate.Check1OfValue | scripts/validate_data.py:83-119 | without a ValueError, the loop concatenates the plots' issues in key order |
| Validate.Check1Fails | scripts/validate_data.py:83-119 | check 1 raises exactly when some lot of a listed plot has a number that `int()` rejects; lots of unlisted plots are never parsed |
| Validate.PlotIssueOf | scripts/validate_data.py:85-118 | every issue of a plot names that plot |
| Validate.Check1OnlyListed | scripts/validate_data.py:83-119 | every mismatch names a plot of `available_lots.csv` |
| Validate.PlotMissingIff | scripts/validate_data.py:84-89 | a listed plot is reported missing exactly when `lots.csv` has no row for it |
| Validate.PlotMissingOnlyEmpty | scripts/validate_data.py:84-89 | a plot is reported missing only when it has no rows |
| Validate.PlotIssueMember | scripts/validate_data.py:91-119 | a lot mismatch of a plot comes from one of that plot's rows in `lots.csv` |
| Validate.Check1Member | scripts/validate_data.py:83-119 | a lot mismatch is reported exactly for the rows of listed plots whose status and list disagree |
| Validate.NotListedIff | scripts/validate_data.py:99-107 | an Available lot of a listed plot is reported exactly when its number is missing from the plot's list |
| Validate.WronglyListedIff | scripts/validate_data.py:110-119 | a lot of a listed plot that is not Available is reported exactly when its number is on the plot's list |
| Validate.CheckPlot | scripts/validate_data.py:91-119 | the loop over one listed plot's lots computes its mismatches or the ValueError |
| Validate.CheckAvailable | scripts/validate_data.py:82-119 | check 1 loops over `available_lots_data` and looks each plot up in `lots_by_plot` |
| Validate.StatusCheck | scripts/validate_data.py:148-172 | a lot is reported exactly when its status contradicts its count of actual occupants |
| Validate.LotIdListed | scripts/validate_data.py:44-51 | a lot id is a key of `lots_data` exactly when some row has it |
| Validate.StatusMismatchIff | scripts/validate_data.py:134-172 | a lot is reported exactly when the last row for its id has a status that its count of non-Reserved occupants contradicts; the report carries that status and count |
| Validate.OtherStatusesPass | scripts/validate_data.py:149-172 | lots marked Unoccupied, Reserved or Not Available are never reported, whatever their occupants |
| Validate.CheckStatuses | scripts/validate_data.py:134-172 | the loop over `lots_data` computes check 2 |
| Validate.OrphanRows | scripts/validate_data.py:190-195 | one orphan record per occupant of an unknown lot, with its lot id, name and status |
| Validate.OccupantIdListed | scripts/validate_data.py:58-63 | every occupant's lot id is a key of `occupants_data` |
| Validate.OrphanIff | scripts/validate_data.py:187-195 | an orphan is reported exactly for an occupant, of any status, whose lot id has no row in `lots.csv` |
| Validate.OrphanReported | scripts/validate_data.py:187-195 | a reported orphan's lot is unknown and the orphan is one of its occupants |
| Validate.OrphanComplete | scripts/validate_data.py:187-195 | every occupant of an unknown lot is reported |
| Validate.NamesOf | scripts/validate_data.py:213 | the names of the occupants, in order |
| Validate.SharedIff | scripts/validate_data.py:210-218 | a lot is reported as shared exactly when more than one occupant row names it, Reserved ones included; the report lists all their names in file order |
| Validate.SharedReported | scripts/validate_data.py:210-218 | a reported shared lot has more than one occupant, and its count and names are theirs |
| Validate.SharedComplete | scripts/validate_data.py:210-218 | every lot with more than one occupant is reported |
| Validate.CheckOrphans | scripts/validate_data.py:187-195 | the loop over `occupants_data` computes check 3 |
| Validate.CheckShared | scripts/validate_data.py:210-218 | the loop over `occupants_data` computes check 4 |
| Validate.OccupantsOfLot | scripts/validate_data.py:63 | every occupant listed under a lot id has that lot id |
| Validate.OrphansOfLot | scripts/validate_data.py:190-195 | the inner loop of check 3 records each occupant of the lot, in order |
| Validate.ValidateData | scripts/validate_data.py:23-251 | validate_data returns the four reports, or the ValueError that stops it; it passes exactly when the first three reports are empty, whatever the shared lots |
| Validate.TableUniform | scripts/validate_data.py:38 | when every row of a plot parses to the same list, that list is kept |
| Validate.RegeneratedRows | scripts/fix_lot_status.py:159-174 | every row that `fix_lot_status` writes parses back to its plot's sorted lot numbers |
| Validate.RegeneratedReads | scripts/fix_lot_status.py:159-174 | the regenerated `available_lots.csv` reads back without error |
| Validate.RegeneratedKeys | scripts/fix_lot_status.py:159-174 | its plots are exactly the plots with an Available lot |
| Validate.RowsListed | scripts/validate_data.py:35-38 | a plot is a key exactly when some row names it |
| Validate.RegeneratedLists | scripts/fix_lot_status.py:159-174 | each of its plots reads back as that plot's sorted Available lot numbers |
| Validate.RegeneratedPassesCheck1 | scripts/validate_data.py:78-119 | when lot numbers are integers and unique within a plot, check 1 finds nothing wrong with the `available_lots.csv` that `fix_lot_status` regenerates from the same lots |
| Validate.Regenerated | scripts/fix_lot_status.py:159-174 | the regenerated table reads back, and check 1 raises no ValueError on it |
| Validate.NoPlotMissing | scripts/validate_data.py:84-89 | no plot of the regenerated table is reported missing |
| Validate.NoNotListed | scripts/validate_data.py:99-107 | no Available lot is missing from the regenerated table |
| Validate.NoWronglyListed | scripts/validate_data.py:110-119 | no lot that is not Available is on the regenerated table |
| Validate.FixedPassesCheck1 | scripts/fix_lot_status.py:147-174 | after `fix_lot_status` writes its `lots.csv` and `available_lots.csv`, `validate_data` reads both and check 1 reports no mismatch |
| Validate.FixedCheck2 | scripts/validate_data.py:148-172 | after `fix_lot_status`, check 2 can only report lots that the fix made Available (no purchased rights) and that still have non-Reserved occupants |
| Validate.DecidedStatusHolds | scripts/fix_lot_status.py:77-91 | the only decided status that check 2 can contradict is Available given to a lot with occupants |
| Validate.SortedKeeps | scripts/fix_lot_status.py:172 | sorting neither adds nor drops a number |
| LotStatus.ActiveIff | scripts/fix_lot_status.py:42-49 | an occupant counts toward a lot exactly when it belongs to the lot and is not Reserved |
| LotStatus.GroupOccupants | scripts/fix_lot_status.py:42-49 | `occupants_by_lot` holds, for every lot id, exactly its non-Reserved occupants in file order |
| LotStatus.Decide | scripts/fix_lot_status.py:76-91 | the five outcomes as exact conditions: Not Available exactly for the pinned lots; Available exactly when unpinned with no purchased rights; Unoccupied when purchased but empty; Partially Occupied when occupied with rights remaining; Fully Occupied otherwise; never Occupied |
| LotStatus.DecideLot | scripts/fix_lot_status.py:69-91 | one lot fails exactly when a rights column is not an integer; otherwise its status is decided from its parsed rights and its count of non-Reserved occupants |
| LotStatus.Decisions | scripts/fix_lot_status.py:68-91 | one decision per lot |
| LotStatus.DecisionsAt | scripts/fix_lot_status.py:68-91 | each decision is the one its own lot yields |
| LotStatus.DecisionsFail | scripts/fix_lot_status.py:70-71 | the run raises exactly when some lot's rights are not integers |
| LotStatus.DecisionsFailPrefix | scripts/fix_lot_status.py:68-71 | once a prefix of the lots raises, the whole run raises the same way |
| LotStatus.ChangesIff | scripts/fix_lot_status.py:95-104 | a change is recorded exactly for the lots whose status text differs |
| LotStatus.ChangesListed | scripts/fix_lot_status.py:95-104 | every recorded change belongs to a lot whose status differs |
| LotStatus.ChangesComplete | scripts/fix_lot_status.py:95-104 | every lot whose status differs has its change recorded |
| LotStatus.Bump | scripts/fix_lot_status.py:93 | counting a status adds one to its bucket and to no other |
| LotStatus.CountsTotal | scripts/fix_lot_status.py:59-93 | the buckets together hold every decision |
| LotStatus.CountsNone | scripts/fix_lot_status.py:59-93 | a bucket that no decision chose stays at 0 |
| LotStatus.Analyze | scripts/fix_lot_status.py:68-107 | the analysis fails exactly when some lot's rights are not integers |
| LotStatus.CountsSum | scripts/fix_lot_status.py:59-93 | the `status_counts` values sum to the number of lots, and Occupied stays 0 |
| LotStatus.DecisionCounts | scripts/fix_lot_status.py:59-93 | the counts of the decisions sum to the number of lots, with no Occupied |
| LotStatus.NeverOccupied | scripts/fix_lot_status.py:76-91 | no lot is decided Occupied |
| LotStatus.ReconciledLot | scripts/fix_lot_status.py:68-107 | each lot keeps every column but status, which becomes the decided one; the lot is unchanged exactly when no change is recorded for it |
| LotStatus.AvailableIffUnpurchased | scripts/fix_lot_status.py:77-82 | a lot ends up Available exactly when it is not pinned and has no purchased rights |
| LotStatus.DecisionsIgnoreStatus | scripts/fix_lot_status.py:69-91 | the decisions read only the lot id and the rights columns, never the current status |
| LotStatus.DecideLotIgnoresStatus | scripts/fix_lot_status.py:69-91 | one lot's decision does not depend on its current status |
| LotStatus.NoChanges | scripts/fix_lot_status.py:95-104 | when no status differs, no change is recorded |
| LotStatus.SecondRun | scripts/fix_lot_status.py:68-107 | a second run over the fixed lots decides and counts the same, records no change, and leaves the lots as they are |
| LotStatus.Reconcile | scripts/fix_lot_status.py:68-107 | the per-lot loop computes exactly the analysis |
| LotStatus.NumbersIff | scripts/fix_lot_status.py:159-164 | a number is listed for a plot exactly when an Available lot of that plot carries it |
| LotStatus.Group | scripts/fix_lot_status.py:159-164 | the keys of `available_by_plot` are distinct and are exactly the keys of its lists |
| LotStatus.GroupFail | scripts/fix_lot_status.py:161-163 | grouping raises exactly on an Available lot whose number is not an integer |
| LotStatus.GroupFailPrefix | scripts/fix_lot_status.py:160-164 | once a prefix raises, the whole grouping raises the same way |
| LotStatus.GroupContents | scripts/fix_lot_status.py:159-164 | each plot's list holds the numbers of its Available lots, and a plot is a key exactly when it has one |
| LotStatus.TableContents | scripts/fix_lot_status.py:159-174 | the regenerated table raises exactly on an Available lot with a non-integer number; otherwise its rows are in sorted plot order, each holds its plot's numbers sorted and comma-joined, and a plot has a row exactly when it has an Available lot |
| LotStatus.TableSorted | scripts/fix_lot_status.py:171 | the rows come in sorted plot order |
| LotStatus.TableRows | scripts/fix_lot_status.py:172-174 | each row holds its plot's numbers sorted and joined |
| LotStatus.TableListed | scripts/fix_lot_status.py:159-174 | a plot has a row exactly when it has an Available lot |
| LotStatus.ListedIff | scripts/fix_lot_status.py:171-174 | a plot has a row exactly when it is a key of the grouping |
| LotStatus.GroupAvailable | scripts/fix_lot_status.py:159-164 | the grouping loop computes `available_by_plot`, or the ValueError |
| LotStatus.WriteRows | scripts/fix_lot_status.py:167-174 | the writing loop writes one row per plot, in sorted order |
| LotStatus.RowsFor | scripts/fix_lot_status.py:171-174 | one row per plot id, in the given order |
| LotStatus.RegenerateAvailable | scripts/fix_lot_status.py:156-174 | regenerating `available_lots.csv` from the fixed lots gives the table, or the ValueError |
| LotStatus.FixLotStatus | scripts/fix_lot_status.py:18-184 | returns the analysis; unless it is a dry run, writes the fixed `lots.csv`, then the regenerated `available_lots.csv` when every Available lot number parses; it returns True exactly when both were written |
| ImageInventory.Repeat | scripts/image_inventory.py:68-71 | n copies of one plot id |
| ImageInventory.AddRefsList | scripts/image_inventory.py:68-71 | the inner loop appends the plot id once for each time the row lists the name |
| ImageInventory.AddRefsNonEmpty | scripts/image_inventory.py:69-71 | a list is created only together with its first plot id, so none is empty |
| ImageInventory.KeyIffListed | scripts/image_inventory.py:69-71 | with no empty list, a name is a key exactly when its list is not empty |
| ImageInventory.Entries | scripts/image_inventory.py:59-64 | one parsed entry per row of `plots.csv` |
| ImageInventory.EntriesReferenced | scripts/image_inventory.py:59-71 | the entries list the same (section, name) pairs as the rows |
| ImageInventory.RecordPlot | scripts/image_inventory.py:60-71 | a row adds its section's entry, even when it lists no image, and no other section |
| ImageInventory.ReferencesLists | scripts/image_inventory.py:55-71 | every list of `referenced_images` holds the ids of the rows of that section, in file order, each repeated as often as the row lists the name |
| ImageInventory.ReferencesKeys | scripts/image_inventory.py:64-66 | the sections of `referenced_images` are the sections of the rows |
| ImageInventory.ReferencesSections | scripts/image_inventory.py:64-66 | a section is a key exactly when some row's plot id has that prefix, whether or not the row lists an image |
| ImageInventory.ReferencesNonEmpty | scripts/image_inventory.py:55-71 | no list of `referenced_images` is empty |
| ImageInventory.ReferencedIffListed | scripts/image_inventory.py:68-71 | a name is recorded under a section exactly when its list is not empty |
| ImageInventory.OccurrencesIff | scripts/image_inventory.py:59-71 | a list is not empty exactly when some row of that section lists the name |
| ImageInventory.AppendIds | scripts/image_inventory.py:68-71 | the loop over one row's images |
| ImageInventory.RecordPlotRefs | scripts/image_inventory.py:60-71 | the body of the loop over `plots.csv` |
| ImageInventory.CollectReferences | scripts/image_inventory.py:55-71 | the loop over `plots.csv` fills `referenced_images` |
| ImageInventory.PairsMember | scripts/image_inventory.py:104 | a pair is counted exactly when the name is a key of its section |
| ImageInventory.TagSize | scripts/image_inventory.py:104 | tagging a section's names with the section keeps their number |
| ImageInventory.PairsRemove | scripts/image_inventory.py:104 | taking one section out takes out exactly its pairs |
| ImageInventory.SizesArePairs | scripts/image_inventory.py:104 | the sum of the section sizes is the number of distinct pairs |
| ImageInventory.PairsAreListed | scripts/image_inventory.py:55-71 | the pairs of `referenced_images` are the (section, name) pairs that some row lists |
| ImageInventory.TotalReferenced | scripts/image_inventory.py:104 | `total_referenced` is the number of distinct (section, name) pairs listed, including sections with no folder |
| ImageInventory.FolderSectionsKnown | scripts/image_inventory.py:20-26 | every section in the loop order is a key of `FOLDER_MAP` |
| ImageInventory.FolderSectionsCover | scripts/image_inventory.py:20-26 | each section of `FOLDER_MAP` appears exactly once |
| ImageInventory.FolderSectionsSorted | scripts/image_inventory.py:115 | `FOLDER_MAP`'s order is its sorted order |
| ImageInventory.ImageNamesIff | scripts/image_inventory.py:86-92 | a name is a physical image file exactly when it is in the listing with an image suffix |
| ImageInventory.AllImages | scripts/image_inventory.py:74-92 | `all_images` has a section exactly when that section's folder exists |
| ImageInventory.ImageFiles | scripts/image_inventory.py:86-92 | the loop over one folder's listing collects its image files |
| ImageInventory.ScanFolders | scripts/image_inventory.py:76-92 | the loop over `FOLDER_MAP` fills `all_images`, skipping missing folders |
| ImageInventory.ReportShape | scripts/image_inventory.py:115-165 | a section is reported missing exactly when its folder is; otherwise its orphans are its files that no row lists, and nothing else |
| ImageInventory.OrphanCounts | scripts/image_inventory.py:152-155 | orphans are counted for each section with a folder, and never exceed its files |
| ImageInventory.MissingFolderCountsNothing | scripts/image_inventory.py:123-126 | a missing folder adds nothing to the physical or orphan totals |
| ImageInventory.InventorySection | scripts/image_inventory.py:116-178 | the loop body computes one section's report |
| ImageInventory.OrphanTotalAlong | scripts/image_inventory.py:106-155 | the accumulated `total_orphaned` is the sum of the sections' orphan counts |
| ImageInventory.Reports | scripts/image_inventory.py:115-178 | one report per section, in order |
| ImageInventory.ReportSections | scripts/image_inventory.py:115-178 | the loop over the sorted sections builds their reports and `total_orphaned` |
| ImageInventory.CreateInventory | scripts/image_inventory.py:49-212 | `create_inventory` returns the three totals and the section reports |
| ImageInventory.InventoryReferenced | scripts/image_inventory.py:104 | `total_referenced` counts the distinct (section, name) pairs that `plots.csv` lists |
| ImageInventory.OrphansWithinPhysical | scripts/image_inventory.py:104-155 | `total_orphaned` never exceeds `total_physical` |
| ImageInventory.OrphanIff | scripts/image_inventory.py:152 | a section's orphans are exactly its image files that no plot of the section lists |
| ImageInventory.OrphanUnreferenced | scripts/image_inventory.py:152 | these are the same orphans the orphaned-image matcher finds: files whose (section, name) pair no row lists |
| ImageInventory.MultiRefsIff | scripts/image_inventory.py:168 | a name is multi-referenced exactly when it has more than one list entry, and its list is the reference list |
| ImageInventory.ListedTwice | scripts/image_inventory.py:68-71 | a row that lists a name twice makes it multi-referenced on its own |
| CremationVault.ReplaceKeeps | scripts/update_cremation_vault_status.py:46-48 | a replacement introduces no character that is in neither the text nor the replacement |
| CremationVault.NormalizedPlain | scripts/update_cremation_vault_status.py:42-49 | a normalized name holds no comma, no full stop and no upper-case letter |
| CremationVault.NormalizeStripped | scripts/update_cremation_vault_status.py:44 | the whitespace around a name plays no part |
| CremationVault.TripleSpaceLeavesTwo | scripts/update_cremation_vault_status.py:48 | only non-overlapping pairs are replaced, so three spaces between two letters leave two |
| CremationVault.NormalizeVia | scripts/update_cremation_vault_status.py:42-49 | for a stripped name without commas or full stops, normalizing is collapsing space pairs and lower-casing |
| CremationVault.TripleReplaced | scripts/update_cremation_vault_status.py:48 | `replace('  ', ' ')` turns three spaces into two |
| CremationVault.Keys | scripts/update_cremation_vault_status.py:63-64 | one normalized key per reference name |
| CremationVault.MissingIff | scripts/update_cremation_vault_status.py:96-97 | a name is listed as missing exactly when it is the table's value for a key the found set lacks |
| CremationVault.KeyOrderKeys | scripts/update_cremation_vault_status.py:63-64 | the table's key order holds exactly its keys |
| CremationVault.TableLookup | scripts/update_cremation_vault_status.py:63-64 | the table's keys are the normalized names, and each key holds the last name on the list with that key |
| CremationVault.NotFoundIff | scripts/update_cremation_vault_status.py:96-97 | a reference name is reported not found exactly when it is the table's value for a key that the found set lacks |
| CremationVault.Target | scripts/update_cremation_vault_status.py:77-84 | a listed cremation name calls for Cremation; otherwise a listed vault name calls for Vault; any other name calls for no change |
| CremationVault.Keyed | scripts/update_cremation_vault_status.py:72-74 | one key per row |
| CremationVault.OnlyStatusChanges | scripts/update_cremation_vault_status.py:72-84 | only the status changes, and only for a listed name, to that list's status |
| CremationVault.UpdateIdempotent | scripts/update_cremation_vault_status.py:77-84 | updating a row twice is updating it once |
| CremationVault.ChangesCounted | scripts/update_cremation_vault_status.py:77-84 | every changed row is recorded exactly once, in the list of its new status |
| CremationVault.NoChanges | scripts/update_cremation_vault_status.py:78-84 | with no row still to change, no change is recorded |
| CremationVault.UpdatedAll | scripts/update_cremation_vault_status.py:72-84 | every row is written back, in order |
| CremationVault.RerunChangesNothing | scripts/update_cremation_vault_status.py:72-104 | a second run over the written rows changes nothing and records no change |
| CremationVault.FoundIff | scripts/update_cremation_vault_status.py:87-94 | a key is found exactly when it is in the table and some row's key equals it |
| CremationVault.UpdateStatuses | scripts/update_cremation_vault_status.py:72-84 | the update loop sets each status in place when the name is listed and the status differs, and records the change |
| CremationVault.KeyIs | scripts/update_cremation_vault_status.py:73-74 | normalizing without the extra strip gives the same key |
| CremationVault.FindNames | scripts/update_cremation_vault_status.py:87-94 | the second loop collects the keys of each table that some row's name matches |
| CremationVault.UpdateFromLists | scripts/update_cremation_vault_status.py:51-104 | `main`, for given reference lists, writes every row back in order with only the status touched, and reports the changes and the names not found |
| CremationVault.UpdateCremationVault | scripts/update_cremation_vault_status.py:9-104 | `main`, with the script's own lists |
| CremationVault.NotFoundMeaning | scripts/update_cremation_vault_status.py:86-97 | a reference name is reported not found exactly when no row's name normalizes to its key, and it is the last name with that key |
| CremationVault.CremationFirst | scripts/update_cremation_vault_status.py:77-84 | a name on both lists is set to Cremation, because the cremation list is checked first |
| CremationVault.HughJohnsonListed | scripts/update_cremation_vault_status.py:18-35 | Hugh E. Johnson is on both lists |
| CremationVault.HughJohnsonIsCremation | scripts/update_cremation_vault_status.py:9-84 | Hugh E. Johnson is marked as a cremation |
| Records.SectionPrefix | scripts/verify_images.py:26-30 | an id of two or more characters gives its first two characters upper-cased; a shorter one gives None |
| Text.Strip | scripts/verify_images.py:34-36 | `str.strip()`: the result has no surrounding whitespace, holds only characters of the input, and is empty exactly when the input is all whitespace |
| Text.Split | scripts/verify_images.py:36 | `str.split(sep)`: at least one piece, and no piece holds the separator |
| Text.SplitJoin | scripts/verify_images.py:36 | splitting a join on its separator gives the parts back when no part holds the separator |
| Text.CleanPieces | scripts/verify_images.py:36 | the comprehension keeps only non-empty, stripped pieces, never more than it was given |
| Text.ParseImagesClean | scripts/verify_images.py:32-36 | every name `parse_images` returns is non-empty, stripped and free of `;` |
| Text.ParseImagesOfJoin | update_plot_images.py:163 | a cell written with `'; '.join` from clean names parses back to those names |
| Text.StoredImagesOfJoin | cleanup_missing_images.py:88 | the cell written from the kept names reads back as those names |
| Text.IntRoundTrip | update_plot_images.py:52 | `int(str(n)) == n`, and `str(n)` has no comma and no surrounding whitespace |
| Text.SortStrings | scripts/verify_images.py:178 | `sorted()` on strings gives a sorted permutation of its input |
| Text.Upper | cleanup_missing_images.py:30 | `str.upper()` maps each character in place, making every ASCII letter upper-case and leaving everything else alone |
| Text.Lower | scripts/add_veteran_column.py:11 | `str.lower()` maps each character in place, making every ASCII letter lower-case and leaving everything else alone |
| Text.ReplaceCharByNothing | scripts/update_cremation_vault_status.py:46-47 | deleting every occurrence of a character leaves none of it and adds no other character |
| Text.ReplaceFirst | scripts/update_cremation_vault_status.py:48 | `str.replace` replaces the first occurrence and continues after it, so occurrences never overlap |
| Text.LastIndexOf | scripts/match_orphaned_images.py:72 | the position `rsplit('.', 1)` splits at holds the last dot, and there is none exactly when the name has no dot |
| Text.ParseSigned | scripts/fix_lot_status.py:70-71 | `int()` accepts no empty text |
| Text.StrLtTotal | scripts/image_inventory.py:115 | the order `sorted()` uses on strings is total |
| Text.StrLtTransitive | scripts/image_inventory.py:115 | and transitive |
| Text.StrLtIrreflexive | scripts/image_inventory.py:115 | and irreflexive |
| CremationVault.KeyOrderInTable | scripts/update_cremation_vault_status.py:63-64 | every key in the key order is a key of the table |
| PlotImages.MergedElement | update_plot_images.py:144-157 | every merged name comes from the existing list or from the new images |
| PlotImages.SortedAnyTwo | update_plot_images.py:66-77 | in the sorted list no later name has a smaller sort key than an earlier one |
| VerifyImages.ShortIdUnknown | scripts/verify_images.py:26-30 | a plot id shorter than two characters never has a folder |
| VerifyImages.FolderMissing | scripts/verify_images.py:84-91 | when the folder does not exist, each image gives one entry with the folder as its reason, in order |
| VerifyImages.CheckedImages | scripts/verify_images.py:94-108 | the inner loop puts each image in exactly one of the two lists, valid entries carrying the path and missing ones the expected path |
| VerifyImages.CheckedStep | scripts/verify_images.py:94-108 | one more image goes to valid_images when its file exists and to missing_images otherwise |
| VerifyImages.CheckedPartition | scripts/verify_images.py:94-108 | the valid names are the images whose file exists and the missing names the others, each in list order |
| VerifyImages.ExactlyOne | scripts/verify_images.py:94-108 | an image is valid exactly when its file exists and missing exactly when it does not, and together the lists hold every image as often as the plot names it |
| VerifyImages.CheckImages | scripts/verify_images.py:94-108 | the inner loop computes the two lists of the specification above |
| VerifyImages.ReportFolderMissing | scripts/verify_images.py:84-91 | the loop for a missing folder computes the folder-missing entries |
| VerifyImages.CheckPlot | scripts/verify_images.py:63-110 | a plot has images exactly when its cell parses to some; it adds their count to the references, one unknown-section entry exactly when its section has no folder, and otherwise one valid or missing entry per image |
| VerifyImages.FolderMissingAllMissing | scripts/verify_images.py:84-91 | with the folder absent, none of the plot's images is valid and all are missing for that reason |
| VerifyImages.FolderPresentSplits | scripts/verify_images.py:93-108 | with the folder present, the plot's images split by whether their file exists |
| VerifyImages.VerifyPlot | scripts/verify_images.py:63-110 | the loop body computes the plot's result |
| VerifyImages.PlotsWithImages | scripts/verify_images.py:69-70 | no more plots with images than plots |
| VerifyImages.Verified | scripts/verify_images.py:60-110 | plots with images and plots without add up to all plots |
| VerifyImages.VerifiedCounts | scripts/verify_images.py:69-71 | plots_with_images counts the plots whose cell names an image, and total_image_refs counts their names |
| VerifyImages.VerifiedUnknown | scripts/verify_images.py:74-78 | unknown_sections has one entry per plot with images whose section has no folder |
| VerifyImages.VerifiedRefs | scripts/verify_images.py:69-108 | every reference is valid, missing, or on a plot of unknown section, exactly once |
| VerifyImages.VerifiedStep | scripts/verify_images.py:63-110 | one more plot updates the counters and lists by its own result |
| VerifyImages.CheckPlots | scripts/verify_images.py:60-110 | the loop over the plots computes the counters and lists of the specification |
| VerifyImages.Count | scripts/verify_images.py:162-176 | counting a plot adds its section to the keys and nothing else |
| VerifyImages.SectionStatsStep | scripts/verify_images.py:158-176 | one more plot is counted under its own section |
| VerifyImages.SectionStatsKeys | scripts/verify_images.py:157-167 | the sections are the set of the plots' prefixes |
| VerifyImages.SectionKeys | scripts/verify_images.py:157-167 | a section is a key exactly when some plot's id has that prefix, None included |
| VerifyImages.CountTotals | scripts/verify_images.py:169 | counting a plot adds one to the sum of the totals |
| VerifyImages.CountWithImages | scripts/verify_images.py:174-175 | and one to the plots with images exactly when it has images |
| VerifyImages.CountImages | scripts/verify_images.py:176 | and its number of images to the image counts |
| VerifyImages.SectionSums | scripts/verify_images.py:157-176 | the per-section totals add up to the number of plots, the plots with images to plots_with_images, and the image counts to total_image_refs |
| VerifyImages.SummariseSections | scripts/verify_images.py:157-176 | the loop computes section_stats |
| VerifyImages.CountPlot | scripts/verify_images.py:162-176 | the loop body creates the section's entry when absent, then counts the plot |
| VerifyImages.SummaryOf | scripts/verify_images.py:189-196 | success holds exactly when no image is missing; the counts are the lengths of the lists |
| VerifyImages.Run | scripts/verify_images.py:38-196 | when the report completes it counts every plot, and succeeds exactly when no image is missing |
| VerifyImages.ExitCode | scripts/verify_images.py:198-203 | exit status 0 exactly when the call returns and reports success |
| VerifyImages.ExitZeroIff | scripts/verify_images.py:157-203 | the script exits 0 exactly when the section keys can be sorted and no image is missing |
| VerifyImages.RunFailsIff | scripts/verify_images.py:157-178 | the report ends in an exception exactly when a plot id shorter than two characters sits beside a longer one |
| VerifyImages.MixedIdsAt | scripts/verify_images.py:26-30 | one short and one long id make the ids mixed |
| VerifyImages.MixedIdsFail | scripts/verify_images.py:157-178 | mixed ids put None beside a string among the keys sorted |
| VerifyImages.FailMixedIds | scripts/verify_images.py:157-178 | a failing sort means the ids are mixed |
| VerifyImages.ShortIdStopsReport | scripts/verify_images.py:157-178 | plot ids "A" and "CYA1" together stop the report before it returns |
| VerifyImages.RunIntended | scripts/verify_images.py:38-196 | the intended report always returns: it counts every plot, plots_with_images and total_image_refs are the counts above, and success means no image is missing |
| VerifyImages.IntendedExitZeroIff | scripts/verify_images.py:198-203 | with the intended report, the exit status is 0 exactly when no image is missing |
| VerifyImages.RunAgrees | scripts/verify_images.py:38-196 | wherever the report as written completes, it returns the intended result |
| VerifyImages.VerifyAll | scripts/verify_images.py:38-196 | `verify_images` computes the result of the model as written, exception included |
| CleanupImages.Head2 | cleanup_missing_images.py:30 | `filename[:2]`: the first two characters, or the whole name when shorter |
| CleanupImages.ImageFolder | cleanup_missing_images.py:28-32 | every name maps to one of the script's yard folders under Monument Images |
| CleanupImages.FolderOfKnownPrefix | cleanup_missing_images.py:28-32 | a name whose prefix, in either case, is a known code goes to that code's folder |
| CleanupImages.UnknownPrefixFallsBack | cleanup_missing_images.py:31 | any other prefix, a missing one included, falls back to the Church Yard folder |
| CleanupImages.BasePathIgnored | cleanup_missing_images.py:34-38 | `check_image_exists` does not depend on its base path argument |
| CleanupImages.Kept | cleanup_missing_images.py:78-80 | every kept name is on the list and its file exists |
| CleanupImages.Dropped | cleanup_missing_images.py:81-83 | every removed name is on the list and its file does not exist |
| CleanupImages.PartitionOf | cleanup_missing_images.py:75-83 | kept and removed names together hold every name exactly as often as the list does |
| CleanupImages.KeptIff | cleanup_missing_images.py:78-83 | a name is kept exactly when its file exists, and removed exactly when it does not |
| CleanupImages.NothingDropped | cleanup_missing_images.py:86 | nothing is removed exactly when the list is kept whole |
| CleanupImages.KeptStable | cleanup_missing_images.py:78-83 | filtering the kept names again keeps them all |
| CleanupImages.KeptClean | cleanup_missing_images.py:70-80 | the kept names of a parsed list are still clean names |
| CleanupImages.KeptStep | cleanup_missing_images.py:78-83 | one more name goes to the kept list when its file exists and to the removed list otherwise |
| CleanupImages.SplitImages | cleanup_missing_images.py:75-83 | the inner loop computes the kept and removed lists |
| CleanupImages.CleanedRow | cleanup_missing_images.py:62-99 | the loop body keeps the plot id, counts the cell's names and removed names, and leaves a row with nothing removed unchanged |
| CleanupImages.CleanedRowLists | cleanup_missing_images.py:86-99 | the cell of the cleaned row reads back as exactly the kept names |
| CleanupImages.CleanedRowChanges | cleanup_missing_images.py:86-99 | a row changes exactly when some of its names were removed |
| CleanupImages.CleanedRowStable | cleanup_missing_images.py:62-99 | cleaning a cleaned row again removes nothing and leaves it as it is |
| CleanupImages.CleanRow | cleanup_missing_images.py:62-99 | the loop body computes the cleaned row and its counts |
| CleanupImages.CleanedRows | cleanup_missing_images.py:62-99 | one cleaned row per input row, in order |
| CleanupImages.Tally | cleanup_missing_images.py:57-99 | no more plots modified than rows |
| CleanupImages.TallyStep | cleanup_missing_images.py:72-87 | one more row adds its checked and removed names, and one modified plot when it lost a name |
| CleanupImages.TallyQuiet | cleanup_missing_images.py:83-87 | nothing is removed exactly when no plot is modified |
| CleanupImages.TallyUnmodified | cleanup_missing_images.py:86-87 | no plot is modified exactly when no row removed a name |
| CleanupImages.Cleaned | cleanup_missing_images.py:62-99 | one result per row |
| CleanupImages.CleanedStep | cleanup_missing_images.py:62-99 | one more row adds its own result |
| CleanupImages.CleanedAt | cleanup_missing_images.py:62-99 | the k-th result is the loop body's result for the k-th row |
| CleanupImages.CountsOf | cleanup_missing_images.py:57-99 | no more plots modified than rows |
| CleanupImages.UnmodifiedIff | cleanup_missing_images.py:83-87 | no name is removed exactly when no plot is modified |
| CleanupImages.UnmodifiedRowsIff | cleanup_missing_images.py:86-87 | no plot is modified exactly when no row lost a name |
| CleanupImages.UnmodifiedNoneLost | cleanup_missing_images.py:86-87 | with no plot modified, no row lost a name |
| CleanupImages.NoneLostUnmodified | cleanup_missing_images.py:86-87 | with no row losing a name, no plot is modified |
| CleanupImages.UnmodifiedRows | cleanup_missing_images.py:86-99 | when no plot is modified the rows are left as they were |
| CleanupImages.RerunRemovesNothing | cleanup_missing_images.py:40-133 | a second run over the written rows removes nothing, modifies no plot and writes the same rows |
| CleanupImages.CleanRows | cleanup_missing_images.py:57-99 | the loop cleans each row in place and its counters are those of the specification |
| CleanupImages.CleanupCsv | cleanup_missing_images.py:40-133 | a missing file gives None; otherwise the result is plots_modified, and the cleaned rows are written only on a real run that modified some plot |
| MissingDates.GapOfMeaning | scripts/missing_dates_report.py:35-48 | an occupant goes to missing_both, missing_dob or missing_dod exactly as its stripped dates are blank, and is skipped when Reserved or when it has both dates |
| MissingDates.Kinds | scripts/missing_dates_report.py:32-48 | one decision per occupant |
| MissingDates.Positions | scripts/missing_dates_report.py:43-48 | the positions of a decision hold that decision and increase |
| MissingDates.PositionsComplete | scripts/missing_dates_report.py:43-48 | every occupant with that decision is listed |
| MissingDates.Gaps | scripts/missing_dates_report.py:28-48 | the occupants of a list are in file order |
| MissingDates.EntriesAt | scripts/missing_dates_report.py:44-48 | one entry per listed position |
| MissingDates.Report | scripts/missing_dates_report.py:28-48 | one entry per occupant in that list |
| MissingDates.EntriesAtStep | scripts/missing_dates_report.py:44-48 | a later occupant leaves the entries of earlier ones unchanged and adds its own at the end |
| MissingDates.GapsStep | scripts/missing_dates_report.py:32-48 | one more occupant is appended to the list of its gap only |
| MissingDates.GapsIff | scripts/missing_dates_report.py:39-48 | an occupant is in a list exactly when its gap is that list's |
| MissingDates.ListsDisjoint | scripts/missing_dates_report.py:39-48 | no occupant is in two lists, and a Reserved occupant or one with both dates is in none |
| MissingDates.PositionsTotal | scripts/missing_dates_report.py:58 | the three lists together hold every occupant that lacks a date, once |
| MissingDates.LiveFlags | scripts/missing_dates_report.py:39-41 | one flag per occupant |
| MissingDates.ReservedUndecided | scripts/missing_dates_report.py:39-41 | a Reserved occupant is never reported |
| MissingDates.DecidedAtMost | scripts/missing_dates_report.py:39-48 | decisions made only for counted occupants are at most their number |
| MissingDates.TotalMissing | scripts/missing_dates_report.py:54-58 | the total with missing date information is the number of occupants reported, never more than the occupants that are not Reserved |
| MissingDates.ReportStep | scripts/missing_dates_report.py:32-48 | one more occupant appends its entry, with its known date, to the list of its gap |
| MissingDates.CheckMissingDates | scripts/missing_dates_report.py:28-48 | the classification loop computes the three lists of the specification |
| VeteranColumn.Collapse | scripts/add_veteran_column.py:13 | collapsing whitespace runs never lengthens the text |
| VeteranColumn.CollapseShape | scripts/add_veteran_column.py:13 | `re.sub(r'\s+', ' ', s)` keeps the text empty or not, ends it in whitespace exactly when it ended so, keeps the non-space characters in their order, turns every other character into a blank, and leaves no two neighbouring whitespace characters |
| VeteranColumn.NormalizeShape | scripts/add_veteran_column.py:9-14 | a normalized name holds no dot, comma, hyphen or capital, no whitespace but blanks, and no two neighbouring blanks |
| VeteranColumn.LowerHasNoUpper | scripts/add_veteran_column.py:11 | a lower-cased name has no capital |
| VeteranColumn.FilterPlain | scripts/add_veteran_column.py:12 | deleting the punctuation leaves none of it and adds no capital |
| VeteranColumn.CollapsePlain | scripts/add_veteran_column.py:12-13 | collapsing text without punctuation or capitals keeps it so, with only blanks as whitespace |
| VeteranColumn.ParseVeteranName | scripts/add_veteran_column.py:16-47 | two name variants, or four when the stripped suffix is not empty |
| VeteranColumn.SuffixedNotEmpty | scripts/add_veteran_column.py:24-43 | with a non-empty suffix the suffixed variant is never blank, so both suffixed variants are added |
| VeteranColumn.Store | scripts/add_veteran_column.py:61-62 | storing the variants adds exactly them as keys, each mapped to the row's service, and keeps every other entry |
| VeteranColumn.TableHas | scripts/add_veteran_column.py:52-62 | a name is in the table exactly when some veteran row has it among its variants |
| VeteranColumn.TableLastWins | scripts/add_veteran_column.py:52-62 | a name maps to the service of the last veteran row that has it |
| VeteranColumn.StoreStep | scripts/add_veteran_column.py:61-62 | one more variant is one more dictionary assignment |
| VeteranColumn.StoreVariants | scripts/add_veteran_column.py:61-62 | the inner loop stores every variant of a row |
| VeteranColumn.LoadVeterans | scripts/add_veteran_column.py:52-62 | the first loop builds the table of the specification |
| VeteranColumn.NewFieldnamesMeaning | scripts/add_veteran_column.py:73-78 | the header fails only with neither column; without a veteran column it gains exactly one, right after its first status column, with every other name kept in order; with one it is kept |
| VeteranColumn.FlaggedBy | scripts/add_veteran_column.py:83-91 | one row per occupant |
| VeteranColumn.FlaggedAt | scripts/add_veteran_column.py:83-91 | the i-th row is the i-th occupant flagged by its own key |
| VeteranColumn.MatchesAreYes | scripts/add_veteran_column.py:82-91 | matches counts exactly the rows marked Yes |
| VeteranColumn.FlaggedIs | scripts/add_veteran_column.py:87-91 | the veteran cell is Yes for a veteran, empty otherwise, every other cell kept |
| VeteranColumn.FlaggedMeaning | scripts/add_veteran_column.py:81-91 | each written row is its occupant with the veteran cell Yes exactly when its normalized name is in the table, else empty, every other cell kept; matches counts the Yes rows |
| VeteranColumn.MatchStep | scripts/add_veteran_column.py:87-89 | one more occupant adds one match exactly when its key is in the table |
| VeteranColumn.LookUp | scripts/add_veteran_column.py:84-87 | the lookup tests the occupant's normalized stripped name |
| VeteranColumn.FlagOccupants | scripts/add_veteran_column.py:81-91 | the second loop computes the flagged rows and the match count |
| VeteranColumn.AddVeteranColumn | scripts/add_veteran_column.py:49-100 | `main` fails exactly when the header has neither column, and otherwise writes the new header, the flagged rows and the match count |
| VeteranSuffixes.WordStart | scripts/fix_veteran_suffixes.py:21-36 | the last word of a text starts after whitespace and holds none |
| VeteranSuffixes.SuffixHasNoSpace | scripts/fix_veteran_suffixes.py:21-22 | a word either pattern accepts holds no whitespace |
| VeteranSuffixes.WordStartOfWord | scripts/fix_veteran_suffixes.py:21 | a whitespace-free tail after whitespace is the last word |
| VeteranSuffixes.StripEndOfPadded | scripts/fix_veteran_suffixes.py:30 | stripping trailing whitespace gives back the text before it |
| VeteranSuffixes.StripOfLeading | scripts/fix_veteran_suffixes.py:30 | text starting with a non-space character is its stripped form plus trailing whitespace |
| VeteranSuffixes.LoneIsSuffix | scripts/fix_veteran_suffixes.py:21-22 | every word of the second pattern is a word of the first |
| VeteranSuffixes.CutBeforeWord | scripts/fix_veteran_suffixes.py:21-30 | cutting a stripped field before a word that follows whitespace leaves a non-empty middle, the whitespace and the word |
| VeteranSuffixes.ParseMeaning | scripts/fix_veteran_suffixes.py:9-44 | a blank field gives two empty strings; without a suffix the middle is the stripped field; a suffix is a suffix word at the end of the stripped field, either the whole field (one of Jr, Sr, II, III, IV) or separated by whitespace from a non-empty middle |
| VeteranSuffixes.SuffixAfterSpace | scripts/fix_veteran_suffixes.py:21-31 | a stripped field made of a middle, whitespace and a suffix word splits into that middle and that word |
| VeteranSuffixes.LoneSuffixMoves | scripts/fix_veteran_suffixes.py:22-31 | a field that is only Jr, Sr, II, III or IV, in any case and with optional dots, becomes the suffix with an empty middle |
| VeteranSuffixes.LoneTitleStays | scripts/fix_veteran_suffixes.py:21-44 | a field that is only MD, PhD, Capt or Dr is no suffix: it is kept, stripped |
| VeteranSuffixes.RewrittenFields | scripts/fix_veteran_suffixes.py:66-72 | both columns hold the parsed middle and suffix whatever they held before; every other column keeps its cell and no other key appears |
| VeteranSuffixes.RewriteRows | scripts/fix_veteran_suffixes.py:64-82 | the loop rewrites each record in place and builds the changes list |
| VeteranSuffixes.FixVeteranSuffixes | scripts/fix_veteran_suffixes.py:46-97 | `main` fails exactly when the header lacks the middle-name column; otherwise it writes the header with Suffix inserted, every record rewritten and the changes |
| VeteranSuffixes.NewFieldnames | scripts/fix_veteran_suffixes.py:59-61 | the new header is the old one with Suffix right after the first middle-name column; an existing Suffix column is kept, so it is then named twice |
| VeteranSuffixes.RowsAndChanges | scripts/fix_veteran_suffixes.py:64-82 | every record is written in order, and a change is listed for exactly the records whose suffix is not empty |
| VeteranSuffixes.ChangeMeaning | scripts/fix_veteran_suffixes.py:75-82 | a listed change records the cell as read and the two parts it was split into, and its suffix is never empty |
| CsvHeaders.KeywordCount | scripts/fix_csv_headers.py:24-33 | the count is at most the number of keywords and at least one exactly when some keyword occurs |
| CsvHeaders.LastWhere | scripts/fix_csv_headers.py:20-36 | the position found passes the test and nothing after it does; with none found, nothing passes |
| CsvHeaders.LastAboveFirst | scripts/fix_csv_headers.py:20-46 | the last passing line is below the first line exactly when some line below the first passes |
| CsvHeaders.FixFails | scripts/fix_csv_headers.py:16-43 | an empty file or one without a header candidate gives False and is not written |
| CsvHeaders.FixWrites | scripts/fix_csv_headers.py:42-58 | the file is rewritten exactly when some candidate stands below the first line |
| CsvHeaders.DataIff | scripts/fix_csv_headers.py:39-40 | a line is kept as data exactly when it is neither a candidate nor blank |
| CsvHeaders.FixWritten | scripts/fix_csv_headers.py:50-57 | a rewritten file is the last candidate followed by the data lines: every other candidate and every blank line is gone |
| CsvHeaders.PlotIdCountsTwice | scripts/fix_csv_headers.py:21-33 | `lot_id` is part of `plot_id`, so a line naming plot_id already holds two keywords |
| CsvHeaders.LooksLikeHeader | scripts/fix_csv_headers.py:24-36 | the nested tests accept a line exactly when it is a header candidate |
| CsvHeaders.ScanLine | scripts/fix_csv_headers.py:22-40 | one pass of the loop body decides candidate and data for its line |
| CsvHeaders.ScanLines | scripts/fix_csv_headers.py:20-40 | the loop finds the last candidate and its position, and collects the data lines |
| CsvHeaders.FixCsvHeader | scripts/fix_csv_headers.py:10-58 | `fix_csv_header` returns and writes what the specification above says |

## Left out
- File and CSV input/output are not modelled. Each script gets its rows, header and lines as parameters and returns what it would write. `csv.DictReader`/`DictWriter` quoting, `open`, directory listings and `shutil` backups are not modelled.
- A row that `DictReader` reads short has `None` in its missing cells. The model treats a missing cell as an absent key or an empty text, as `row.get(col, '')` reads it.
- An image folder is a map from folder name to the names in it, in listing order. File sizes and modification times are not modelled.
- `img_path.is_file()` in `scripts/image_inventory.py` and `scripts/match_orphaned_images.py` is not modelled. A listing holds plain names, so a sub-folder whose name ends in an image suffix would count as an image file.
- Console printing, the report layout, the tab-separated export of `scripts/image_inventory.py` and the text file of `scripts/missing_dates_report.py` are not modelled. The model keeps the lists and counts they print, except the final status count below.
- CremationVault.UpdateFromLists: does not compute the final status count of `scripts/update_cremation_vault_status.py` (`status_counts` over the written rows), which the script only prints.
- Command-line parsing is not modelled. `--dry-run` is a boolean parameter. `sys.exit` is modelled as the exit code of `VerifyImages.ExitCode` only.
- The `main` of `scripts/fix_csv_headers.py` and its exception handling are not modelled. `CsvHeaders.FixCsvHeader` models one file.
- `scripts/oldest_at_death.py` and `scripts/oldest_burials.py` are not part of this model. They depend on date parsing and floating-point ages.
- Case mapping, letters and digits are ASCII only. Python's Unicode tables for them are not modelled. Whitespace (`strip`, `rstrip` and `\s`) follows the full set of `str.isspace`.
- Each regular expression is written as its own recogniser. There is no general regex engine.
- `int()` accepts surrounding whitespace, an optional sign and ASCII digits. Underscores between digits and non-ASCII digits are not modelled.
- The name lists of `scripts/update_cremation_vault_status.py` and the folder tables of the scripts are parameters or constants. They are copied as the scripts have them, including the two different spellings of the Intervale folder.
- In `fix_lot_status`, `lot.get('purchased_rights', 0)` and `lot.get('remaining_rights', 0)` default to 0 when the column is missing from the header. The model's lot rows always have both columns, so that default is not modelled.
- The third test of `parse_middle_and_suffix` (`parts[-1]` of `split()`) is not modelled as a separate branch. It fires only when the first pattern would already have matched, so it never decides the result.
- In `update_plot_images.py`, the image-type group of the new-format pattern can never capture under `re.IGNORECASE`. The model follows the pattern, so every image type is empty and `sort_images` orders by lot number alone. The front-before-back order described in the script's comments does not happen.
- In `cleanup_missing_images.py`, a name whose prefix is not a known yard code silently goes to the Church Yard folder. The model keeps that fallback.

## Findings
| source | as written | input that shows it | evidently intended | confidence | as-written member | corrected member |
|---|---|---|---|---|---|---|
| scripts/verify_images.py:157-178 | a plot id shorter than two characters gets section `None`; `sorted(section_stats.keys())` then compares `None` with a string and raises `TypeError`, so the summary is never returned and the script exits with status 1 | plot ids `"A"` and `"CYA1"` in the same `plots.csv` | the summary by section is printed in some order and the statistics are returned, success meaning that no image is missing | not executed | VerifyImages.Run, VerifyImages.ShortIdStopsReport | VerifyImages.RunIntended, VerifyImages.RunAgrees |
