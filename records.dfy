/** The rows of the cemetery CSV files, with the columns the scripts read, and
    the monument-image folders as the scripts see them. */
module Records {
  import opened Wrappers
  import opened Text

  /** A row of plots.csv. */
  datatype Plot = Plot(plotId: string, monumentImages: string)

  /** A row of lots.csv; the number columns are text until a script applies int(). */
  datatype Lot = Lot(lotId: string, plotId: string, lotNumber: string,
                     purchasedRights: string, remainingRights: string, status: string)

  /** A row of occupants.csv. */
  datatype Occupant = Occupant(lotId: string, name: string, status: string,
                               birthDate: string, deathDate: string)

  /** The image folders: each existing folder's name mapped to the names of the
      files in it, in the order a directory listing yields them. A folder that is
      not a key does not exist. Each module's header says whether its keys are
      bare folder names or the paths under "Monument Images" (FolderPath). */
  type Listing = map<string, seq<string>>

  predicate FileExists(tree: Listing, folder: string, name: string) {
    folder in tree && name in tree[folder]
  }

  /** get_section_prefix: the first two characters upper-cased, or None for a
      shorter id. */
  function SectionPrefix(plotId: string): (r: Option<string>)
    ensures r.None? <==> |plotId| < 2
    ensures r.Some? ==> |r.value| == 2 && r.value == Upper(plotId[..2])
  {
    if |plotId| >= 2 then Some(Upper(plotId[..2])) else None
  }

  /** The prefix of a plot's id, as a singleton set (for Collections.UnionOf). */
  function PrefixOf(): Plot -> set<Option<string>> {
    (p: Plot) => {SectionPrefix(p.plotId)}
  }

  /** FOLDER_MAP of scripts/verify_images.py and scripts/image_inventory.py
      (the folder table of the cemetery viewer): section prefix to folder name. */
  const FolderMap: map<string, string> :=
    map["CY" := "OICA Church Yard", "IT" := "OICA Intervale Terrace", "NY" := "OICA New Yard",
        "OY" := "OICA Old Yard", "UT" := "OICA Upper Terrace"]

  /** IMAGES_DIR of those scripts, relative to the script's directory. */
  const ImagesDir: string := "Monument Images"

  function FolderPath(folder: string): string { ImagesDir + "/" + folder }

  /** A section prefix with a folder: `section in FOLDER_MAP` (None never is). */
  predicate Known(section: Option<string>) {
    section.Some? && section.value in FolderMap
  }
}
