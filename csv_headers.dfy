/** scripts/fix_csv_headers.py: find the header line of a CSV file that a
    spreadsheet sort has moved, and put it back on the first line. The file is
    the list of its lines as readlines() gives them, line ends included; the
    result is fix_csv_header's return value and the lines it writes, if any. */
module CsvHeaders {
  import opened Wrappers
  import opened Text
  import opened Collections

  /** header_keywords */
  const HeaderKeywords: seq<string> := ["lot_id", "plot_id", "name", "status"]

  /** any(keyword in low for keyword in keywords) */
  predicate AnyKeyword(low: string, keywords: seq<string>) {
    exists k :: 0 <= k < |keywords| && Contains(low, keywords[k])
  }

  /** sum(1 for kw in keywords if kw in low) */
  function KeywordCount(low: string, keywords: seq<string>): (n: nat)
    ensures n <= |keywords|
    ensures n >= 1 <==> AnyKeyword(low, keywords)
    decreases |keywords|
  {
    if keywords == [] then 0
    else
      var init := keywords[..|keywords| - 1];
      var n := KeywordCount(low, init) + (if Contains(low, keywords[|keywords| - 1]) then 1 else 0);
      assert forall k :: 0 <= k < |init| ==> init[k] == keywords[k];
      n
  }

  /** A line is taken for the header when it holds at least two of the
      keywords, ignoring case, at least four commas, and starts with a double
      quote once stripped. */
  predicate IsHeader(line: string) {
    KeywordCount(Lower(line), HeaderKeywords) >= 2 && Count(line, ',') >= 4 && StartsWith(Strip(line), "\"")
  }

  /** A line that is neither a header candidate nor blank goes to the data lines. */
  predicate IsData(line: string) {
    !IsHeader(line) && Strip(line) != []
  }

  /** The position of the last element that passes the test, if any. */
  function LastWhere<T>(xs: seq<T>, f: T -> bool): (r: Option<nat>)
    ensures r.Some? ==> r.value < |xs| && f(xs[r.value]) && forall j :: r.value < j < |xs| ==> !f(xs[j])
    ensures r.None? ==> forall j :: 0 <= j < |xs| ==> !f(xs[j])
    decreases |xs|
  {
    if xs == [] then None
    else
      var n := |xs| - 1;
      var init := xs[..n];
      assert forall j :: 0 <= j < n ==> init[j] == xs[j];
      if f(xs[n]) then Some(n) else LastWhere(init, f)
  }

  lemma LastWhereStep<T>(xs: seq<T>, f: T -> bool, i: nat)
    requires i < |xs|
    ensures LastWhere(xs[..i + 1], f) == if f(xs[i]) then Some(i) else LastWhere(xs[..i], f)
  {
    PrefixSnoc(xs, i);
  }

  /** The last passing element lies past the first position exactly when some
      element past the first passes. */
  lemma LastAboveFirst<T>(xs: seq<T>, f: T -> bool)
    ensures (LastWhere(xs, f).Some? && LastWhere(xs, f).value > 0) <==> exists j :: 0 < j < |xs| && f(xs[j])
  {
    if exists j :: 0 < j < |xs| && f(xs[j]) {
      var j :| 0 < j < |xs| && f(xs[j]);
      assert LastWhere(xs, f).Some? && LastWhere(xs, f).value >= j;
    }
  }

  /** data_lines: the lines that are neither header candidates nor blank, in
      file order. */
  function DataLines(lines: seq<string>): seq<string> {
    Filter(lines, IsData)
  }

  /** header_index: the position of the last header candidate, if any. */
  function LastHeader(lines: seq<string>): Option<nat> {
    LastWhere(lines, IsHeader)
  }

  /** What fix_csv_header returns, and the lines it writes (None: no write). */
  datatype Outcome = Outcome(ok: bool, written: Option<seq<string>>)

  function Fix(lines: seq<string>): Outcome {
    if lines == [] then Outcome(false, None)
    else
      match LastHeader(lines)
      case None => Outcome(false, None)
      case Some(k) => if k == 0 then Outcome(true, None) else Outcome(true, Some([lines[k]] + DataLines(lines)))
  }

  /** An empty file, and a file without a header candidate, give False and
      are not written. */
  lemma FixFails(lines: seq<string>)
    ensures !Fix(lines).ok <==> forall j :: 0 <= j < |lines| ==> !IsHeader(lines[j])
    ensures !Fix(lines).ok ==> Fix(lines).written.None?
  {
  }

  /** The file is rewritten exactly when some candidate stands below the
      first line; a header on the first line and nowhere else gives True
      without a write. */
  lemma FixWrites(lines: seq<string>)
    ensures Fix(lines).written.Some? <==> exists j :: 0 < j < |lines| && IsHeader(lines[j])
  {
    LastAboveFirst(lines, IsHeader);
  }

  /** A line is kept as data exactly when it is neither a candidate nor blank. */
  lemma DataIff(lines: seq<string>, line: string)
    ensures line in DataLines(lines) <==> line in lines && !IsHeader(line) && Strip(line) != []
  {
    FilterIff(lines, IsData, line);
  }

  /** A rewritten file is the last candidate followed by the data lines, one
      more line than the data: every other candidate and every blank line is
      gone, and no line after the first is a candidate. */
  lemma FixWritten(lines: seq<string>)
    requires Fix(lines).written.Some?
    ensures var w := Fix(lines).written.value;
      |w| == 1 + |DataLines(lines)| && w[1..] == DataLines(lines)
      && IsHeader(w[0]) && w[0] == lines[LastHeader(lines).value]
      && forall j :: 1 <= j < |w| ==> !IsHeader(w[j]) && Strip(w[j]) != []
  {
    var w := Fix(lines).written.value;
    assert w[1..] == DataLines(lines);
    forall j | 1 <= j < |w| ensures !IsHeader(w[j]) && Strip(w[j]) != [] {
      assert w[j] in DataLines(lines);
      DataIff(lines, w[j]);
    }
  }

  /** 'lot_id' is part of 'plot_id', so a line naming plot_id already holds
      two keywords. */
  lemma PlotIdCountsTwice(low: string)
    requires Contains(low, "plot_id")
    ensures KeywordCount(low, HeaderKeywords) >= 2
  {
    ContainsSomewhere(low, "plot_id");
    var i: nat :| OccursAt(low, "plot_id", i);
    assert low[i + 1..i + 7] == low[i..i + 7][1..];
    ContainsAt(low, "lot_id", i + 1);
    assert HeaderKeywords[..3][..2][..1] == ["lot_id"];
    assert HeaderKeywords[..3][..2] == ["lot_id", "plot_id"];
    assert HeaderKeywords[..3] == ["lot_id", "plot_id", "name"];
    assert KeywordCount(low, HeaderKeywords[..3][..2][..1]) == 1;
    assert KeywordCount(low, HeaderKeywords[..3][..2]) == 2;
  }

  /** The nested tests of the loop body: a header candidate is found. */
  method LooksLikeHeader(line: string) returns (isHeader: bool)
    ensures isHeader == IsHeader(line)
  {
    isHeader := false;
    var low := Lower(line);
    if AnyKeyword(low, HeaderKeywords) {
      if Count(line, ',') >= 4 && StartsWith(Strip(line), "\"") {
        var keywordCount := KeywordCount(low, HeaderKeywords);
        if keywordCount >= 2 {
          isHeader := true;
        }
      }
    }
  }

  /** One pass of the loop body over line i: whether it is the new header
      candidate, and otherwise whether it joins the data lines. */
  method ScanLine(lines: seq<string>, i: nat) returns (isHeader: bool, isData: bool)
    requires i < |lines|
    ensures isHeader == IsHeader(lines[i]) && isData == IsData(lines[i])
  {
    var line := lines[i];
    isHeader := LooksLikeHeader(line);
    isData := !isHeader && Strip(line) != [];
  }

  /** The loop of fix_csv_header: the last header candidate and its
      position, and the data lines. */
  method ScanLines(lines: seq<string>) returns (headerLine: Option<string>, headerIndex: int, dataLines: seq<string>)
    ensures dataLines == DataLines(lines)
    ensures headerLine.None? <==> LastHeader(lines).None?
    ensures headerLine.Some? ==> headerIndex == LastHeader(lines).value && headerLine.value == lines[headerIndex]
  {
    headerLine := None;
    headerIndex := -1;
    dataLines := [];
    for i := 0 to |lines|
      invariant dataLines == DataLines(lines[..i])
      invariant headerLine.None? <==> LastHeader(lines[..i]).None?
      invariant headerLine.Some? ==> headerIndex == LastHeader(lines[..i]).value && headerLine.value == lines[headerIndex]
    {
      FilterStep(lines, IsData, i);
      LastWhereStep(lines, IsHeader, i);
      var isHeader, isData := ScanLine(lines, i);
      if isHeader {
        headerLine := Some(lines[i]);
        headerIndex := i;
        continue;
      }
      if isData {
        dataLines := dataLines + [lines[i]];
      }
    }
    Whole(lines);
  }

  /** fix_csv_header, after the file has been read. */
  method FixCsvHeader(lines: seq<string>) returns (ok: bool, written: Option<seq<string>>)
    ensures ok == Fix(lines).ok && written == Fix(lines).written
  {
    if lines == [] {
      return false, None;
    }
    var headerLine, headerIndex, dataLines := ScanLines(lines);
    if headerLine.None? {
      return false, None;
    }
    if headerIndex == 0 {
      return true, None;
    }
    return true, Some([headerLine.value] + dataLines);
  }
}
