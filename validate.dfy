/** scripts/validate_data.py: available_lots.csv, lots.csv and occupants.csv
    read into dictionaries, then four consistency checks between them. */
module Validate {
  import opened Wrappers
  import opened Text
  import opened Collections
  import opened Records
  import opened LotStatus

  // ---------------------------------------------------------------------------
  // parse_available_lots
  // ---------------------------------------------------------------------------

  /** [int(p.strip()) for p in pieces]: any piece int() rejects raises. */
  function ParsePieces(pieces: seq<string>): Option<seq<int>> {
    if forall i :: 0 <= i < |pieces| ==> ParseInt(Strip(pieces[i])).Some? then
      Some(seq(|pieces|, i requires 0 <= i < |pieces| => ParseInt(Strip(pieces[i])).value))
    else None
  }

  /** The pieces parse exactly when each one does, and then give one number
      per piece, in order. */
  lemma ParsePiecesMeaning(pieces: seq<string>)
    ensures ParsePieces(pieces).Some? <==> forall i :: 0 <= i < |pieces| ==> ParseInt(Strip(pieces[i])).Some?
    ensures ParsePieces(pieces).Some? ==> var ns := ParsePieces(pieces).value;
      |ns| == |pieces| && forall i :: 0 <= i < |pieces| ==> ParseInt(Strip(pieces[i])) == Some(ns[i])
  {
  }

  /** parse_available_lots: a blank cell is the empty list, anything else is
      split on ',' and every piece must be an integer. Only a blank cell gives
      the empty list. */
  function ParseAvailableLots(cell: string): (r: Option<seq<int>>)
    ensures r == Some([]) <==> AllSpaces(cell)
  {
    if Strip(cell) == [] then Some([])
    else
      ParsePiecesMeaning(Split(cell, ','));
      ParsePieces(Split(cell, ','))
  }

  /** An empty or blank piece, as in "1,,2", makes the whole cell fail. */
  lemma BlankPieceFails(cell: string, i: nat)
    requires !AllSpaces(cell) && i < |Split(cell, ',')| && AllSpaces(Split(cell, ',')[i])
    ensures ParseAvailableLots(cell) == None
  {
    var p := Split(cell, ',')[i];
    assert Strip(p) == [];
    assert ParseInt([]) == None;
    ParsePiecesMeaning(Split(cell, ','));
  }

  /** Reading back the cell fix_lot_status writes gives the numbers it wrote. */
  lemma ParseJoinInts(ns: seq<int>)
    ensures ParseAvailableLots(JoinInts(ns)) == Some(ns)
  {
    if ns == [] {
      assert JoinInts(ns) == "";
    } else {
      IntPartsClean(ns);
      JoinIntsSplit(ns);
      ParsePiecesOfParts(ns);
    }
  }

  /** The texts str(n) that fix_lot_status joins. */
  function IntParts(ns: seq<int>): (r: seq<string>)
    ensures |r| == |ns| && forall i :: 0 <= i < |ns| ==> r[i] == IntToString(ns[i])
  {
    seq(|ns|, i requires 0 <= i < |ns| => IntToString(ns[i]))
  }

  lemma IntPartsClean(ns: seq<int>)
    ensures var parts := IntParts(ns);
      forall i :: 0 <= i < |ns| ==>
        ',' !in parts[i] && parts[i] != [] && !IsSpace(parts[i][0]) && ParseInt(Strip(parts[i])) == Some(ns[i])
  {
    var parts := IntParts(ns);
    forall i | 0 <= i < |ns|
      ensures ',' !in parts[i] && parts[i] != [] && !IsSpace(parts[i][0]) && ParseInt(Strip(parts[i])) == Some(ns[i])
    {
      IntRoundTrip(ns[i]);
    }
  }

  lemma JoinIntsSplit(ns: seq<int>)
    requires ns != []
    ensures Split(JoinInts(ns), ',') == IntParts(ns) && !AllSpaces(JoinInts(ns))
  {
    var parts := IntParts(ns);
    SameElements(parts, seq(|ns|, i requires 0 <= i < |ns| => IntToString(ns[i])));
    assert JoinInts(ns) == Join([','], parts);
    IntPartsClean(ns);
    SplitJoin(parts, ',');
    JoinEnds([','], parts);
  }

  lemma ParsePiecesOfParts(ns: seq<int>)
    ensures ParsePieces(IntParts(ns)) == Some(ns)
  {
    IntPartsClean(ns);
    ParsePiecesMeaning(IntParts(ns));
    SameElements(ParsePieces(IntParts(ns)).value, ns);
  }

  // ---------------------------------------------------------------------------
  // Reading available_lots.csv
  // ---------------------------------------------------------------------------

  /** The message of the ValueError int() raises on text it cannot parse. */
  function IntError(text: string): string {
    "ValueError: invalid literal for int(): " + text
  }

  /** A dict filled row by row: its keys in insertion order and its values. */
  datatype Table = Table(keys: seq<string>, lists: map<string, seq<int>>)

  /** A row of available_lots.csv with its cell parsed. */
  datatype Entry = Entry(plotId: string, cell: string, parsed: Option<seq<int>>)

  function Entries(rows: seq<AvailableRow>): (r: seq<Entry>)
    ensures |r| == |rows| && forall i :: 0 <= i < |rows| ==>
      r[i] == Entry(rows[i].plotId, rows[i].lotsAvailable, ParseAvailableLots(rows[i].lotsAvailable))
  {
    seq(|rows|, i requires 0 <= i < |rows| => Entry(rows[i].plotId, rows[i].lotsAvailable, ParseAvailableLots(rows[i].lotsAvailable)))
  }

  /** available_lots_data[plot_id] = lots for each row in turn, or the first
      cell int() rejects. */
  function TableOf(es: seq<Entry>): (r: Result<Table>)
    ensures r.Ok? ==> Distinct(r.value.keys) && forall k :: k in r.value.keys <==> k in r.value.lists
    decreases |es|
  {
    if es == [] then Ok(Table([], map[]))
    else
      var e := es[|es| - 1];
      match TableOf(es[..|es| - 1])
      case Fail(msg) => Fail(msg)
      case Ok(t) =>
        match e.parsed
        case None => Fail(IntError(e.cell))
        case Some(ns) =>
          Ok(Table(if e.plotId in t.lists then t.keys else t.keys + [e.plotId], t.lists[e.plotId := ns]))
  }

  /** available_lots_data after the reading loop. */
  function AvailableOf(rows: seq<AvailableRow>): Result<Table> {
    TableOf(Entries(rows))
  }

  /** Reading fails exactly when some row's cell does not parse. */
  lemma {:induction false} TableFail(es: seq<Entry>)
    ensures TableOf(es).Fail? <==> exists i :: 0 <= i < |es| && es[i].parsed.None?
    decreases |es|
  {
    if es != [] {
      var init := es[..|es| - 1];
      var last := |es| - 1;
      TableFail(init);
      if TableOf(init).Fail? {
        var i :| 0 <= i < |init| && init[i].parsed.None?;
        assert es[i] == init[i];
      } else if es[last].parsed.Some? {
        forall i | 0 <= i < |es| ensures es[i].parsed.Some? {
          if i < |init| { assert es[i] == init[i]; }
        }
      } else {
        assert TableOf(es).Fail?;
      }
    }
  }

  lemma AvailableFail(rows: seq<AvailableRow>)
    ensures AvailableOf(rows).Fail? <==> exists i :: 0 <= i < |rows| && ParseAvailableLots(rows[i].lotsAvailable).None?
  {
    var es := Entries(rows);
    TableFail(es);
    if AvailableOf(rows).Fail? {
      var i :| 0 <= i < |es| && es[i].parsed.None?;
      assert ParseAvailableLots(rows[i].lotsAvailable).None?;
    }
  }

  lemma {:induction false} TableFailPrefix(es: seq<Entry>, k: nat)
    requires k <= |es| && TableOf(es[..k]).Fail?
    ensures TableOf(es) == TableOf(es[..k])
    decreases |es| - k
  {
    if k < |es| {
      var init := es[..|es| - 1];
      assert init[..k] == es[..k];
      TableFailPrefix(init, k);
    } else {
      assert es[..k] == es;
    }
  }

  function PlotIdsOf(rows: seq<AvailableRow>): (r: seq<string>)
    ensures |r| == |rows| && forall i :: 0 <= i < |rows| ==> r[i] == rows[i].plotId
  {
    seq(|rows|, i requires 0 <= i < |rows| => rows[i].plotId)
  }

  function EntryIds(es: seq<Entry>): (r: seq<string>)
    ensures |r| == |es| && forall i :: 0 <= i < |es| ==> r[i] == es[i].plotId
  {
    seq(|es|, i requires 0 <= i < |es| => es[i].plotId)
  }

  lemma {:induction false} TableKeys(es: seq<Entry>)
    requires TableOf(es).Ok?
    ensures TableOf(es).value.keys == Dedup(EntryIds(es))
    decreases |es|
  {
    if es != [] {
      var init := es[..|es| - 1];
      var t := TableOf(init).value;
      var p := es[|es| - 1].plotId;
      TableKeys(init);
      var ids := EntryIds(es);
      SameElements(ids[..|ids| - 1], EntryIds(init));
      assert Dedup(ids) == if p in t.keys then t.keys else t.keys + [p];
    }
  }

  /** The keys are the plot ids in order of first appearance: a repeated
      plot keeps its place. */
  lemma AvailableKeys(rows: seq<AvailableRow>)
    requires AvailableOf(rows).Ok?
    ensures AvailableOf(rows).value.keys == Dedup(PlotIdsOf(rows))
  {
    TableKeys(Entries(rows));
    SameElements(EntryIds(Entries(rows)), PlotIdsOf(rows));
  }

  lemma {:induction false} TableLastWins(es: seq<Entry>, j: nat)
    requires TableOf(es).Ok? && j < |es|
    requires forall k :: j < k < |es| ==> es[k].plotId != es[j].plotId
    ensures es[j].plotId in TableOf(es).value.lists
    ensures es[j].parsed == Some(TableOf(es).value.lists[es[j].plotId])
    decreases |es|
  {
    if j < |es| - 1 {
      var init := es[..|es| - 1];
      assert init[j] == es[j];
      assert forall k :: j < k < |init| ==> init[k] == es[k];
      TableLastWins(init, j);
    }
  }

  /** For a repeated plot the last row wins. */
  lemma LastRowWins(rows: seq<AvailableRow>, j: nat)
    requires AvailableOf(rows).Ok? && j < |rows|
    requires forall k :: j < k < |rows| ==> rows[k].plotId != rows[j].plotId
    ensures rows[j].plotId in AvailableOf(rows).value.lists
    ensures ParseAvailableLots(rows[j].lotsAvailable) == Some(AvailableOf(rows).value.lists[rows[j].plotId])
  {
    TableLastWins(Entries(rows), j);
  }

  lemma TableStep(es: seq<Entry>, i: nat, t: Table, ns: seq<int>)
    requires i < |es| && TableOf(es[..i]) == Ok(t) && es[i].parsed == Some(ns)
    ensures TableOf(es[..i + 1]) ==
      Ok(Table(if es[i].plotId in t.lists then t.keys else t.keys + [es[i].plotId], t.lists[es[i].plotId := ns]))
  {
    PrefixSnoc(es, i);
  }

  lemma TableStops(es: seq<Entry>, i: nat)
    requires i < |es| && TableOf(es[..i]).Ok? && es[i].parsed.None?
    ensures TableOf(es) == Fail(IntError(es[i].cell))
  {
    PrefixSnoc(es, i);
    TableFailPrefix(es, i + 1);
  }

  /** One row of available_lots.csv as the reading loop sees it: its plot id,
      its cell, and the cell parsed. */
  method ReadEntry(rows: seq<AvailableRow>, i: nat) returns (plotId: string, cell: string, ns: Option<seq<int>>)
    requires i < |rows|
    ensures Entries(rows)[i] == Entry(plotId, cell, ns)
  {
    plotId := rows[i].plotId;
    cell := rows[i].lotsAvailable;
    ns := ParseAvailableLots(cell);
  }

  /** The reading loop over available_lots.csv. */
  method ReadAvailable(rows: seq<AvailableRow>) returns (r: Result<Table>)
    ensures r == AvailableOf(rows)
  {
    ghost var es := Entries(rows);
    var keys: seq<string> := [];
    var lists: map<string, seq<int>> := map[];
    var i := 0;
    while i < |rows|
      invariant 0 <= i <= |rows|
      invariant TableOf(es[..i]) == Ok(Table(keys, lists))
    {
      var plotId, cell, ns := ReadEntry(rows, i);
      if ns.None? {
        TableStops(es, i);
        return Fail(IntError(cell));
      }
      assert es[i].plotId == plotId && es[i].parsed == ns;
      TableStep(es, i, Table(keys, lists), ns.value);
      keys := if plotId in lists then keys else keys + [plotId];
      lists := lists[plotId := ns.value];
      i := i + 1;
    }
    Whole(es);
    return Ok(Table(keys, lists));
  }

  // ---------------------------------------------------------------------------
  // Reading lots.csv and occupants.csv
  // ---------------------------------------------------------------------------

  function LotIdsOf(lots: seq<Lot>): (r: seq<string>)
    ensures |r| == |lots| && forall i :: 0 <= i < |lots| ==> r[i] == lots[i].lotId
  {
    seq(|lots|, i requires 0 <= i < |lots| => lots[i].lotId)
  }

  /** lots_data[lot_id]: the last row with that lot id, if any. */
  function LastLot(lots: seq<Lot>, lotId: string): (r: Option<Lot>)
    ensures r.Some? ==> r.value.lotId == lotId && r.value in lots
    ensures r.None? <==> forall j :: 0 <= j < |lots| ==> lots[j].lotId != lotId
    decreases |lots|
  {
    if lots == [] then None
    else
      var lot := lots[|lots| - 1];
      assert forall j :: 0 <= j < |lots| - 1 ==> lots[..|lots| - 1][j] == lots[j];
      if lot.lotId == lotId then Some(lot) else LastLot(lots[..|lots| - 1], lotId)
  }

  /** lots_by_plot[plot_id]: the rows of that plot, in file order. */
  function LotsIn(lots: seq<Lot>, plotId: string): seq<Lot>
    decreases |lots|
  {
    if lots == [] then []
    else
      var lot := lots[|lots| - 1];
      LotsIn(lots[..|lots| - 1], plotId) + (if lot.plotId == plotId then [lot] else [])
  }

  lemma {:induction false} LotsInIff(lots: seq<Lot>, plotId: string, lot: Lot)
    ensures lot in LotsIn(lots, plotId) <==> lot in lots && lot.plotId == plotId
    decreases |lots|
  {
    if lots != [] {
      var init := lots[..|lots| - 1];
      LotsInIff(init, plotId, lot);
      assert lots == init + [lots[|lots| - 1]];
    }
  }

  function OccupantIdsOf(occupants: seq<Occupant>): (r: seq<string>)
    ensures |r| == |occupants| && forall i :: 0 <= i < |occupants| ==> r[i] == occupants[i].lotId
  {
    seq(|occupants|, i requires 0 <= i < |occupants| => occupants[i].lotId)
  }

  /** occupants_data[lot_id]: every occupant of the lot, Reserved ones included. */
  function OccupantsIn(occupants: seq<Occupant>, lotId: string): seq<Occupant>
    decreases |occupants|
  {
    if occupants == [] then []
    else
      var o := occupants[|occupants| - 1];
      OccupantsIn(occupants[..|occupants| - 1], lotId) + (if o.lotId == lotId then [o] else [])
  }

  lemma {:induction false} OccupantsInIff(occupants: seq<Occupant>, lotId: string, o: Occupant)
    ensures o in OccupantsIn(occupants, lotId) <==> o in occupants && o.lotId == lotId
    decreases |occupants|
  {
    if occupants != [] {
      var init := occupants[..|occupants| - 1];
      OccupantsInIff(init, lotId, o);
      assert occupants == init + [occupants[|occupants| - 1]];
    }
  }

  lemma {:induction false} OccupantsInNone(occupants: seq<Occupant>, lotId: string)
    requires forall j :: 0 <= j < |occupants| ==> occupants[j].lotId != lotId
    ensures OccupantsIn(occupants, lotId) == []
    decreases |occupants|
  {
    if occupants != [] {
      var init := occupants[..|occupants| - 1];
      assert forall j :: 0 <= j < |init| ==> init[j] == occupants[j];
      OccupantsInNone(init, lotId);
    }
  }

  /** [occ for occ in occupants if occ['status'] != 'Reserved'] */
  function NonReserved(os: seq<Occupant>): seq<Occupant>
    decreases |os|
  {
    if os == [] then []
    else
      var o := os[|os| - 1];
      NonReserved(os[..|os| - 1]) + (if o.status != "Reserved" then [o] else [])
  }

  lemma NonReservedSnoc(os: seq<Occupant>, o: Occupant)
    ensures NonReserved(os + [o]) == NonReserved(os) + (if o.status != "Reserved" then [o] else [])
  {
    assert (os + [o])[..|os|] == os;
  }

  /** Filtering a lot's occupants by status gives the occupants the status fix
      counts: check 2 and fix_lot_status agree on what an actual occupant is. */
  lemma {:induction false} NonReservedIn(occupants: seq<Occupant>, lotId: string)
    ensures NonReserved(OccupantsIn(occupants, lotId)) == Active(occupants, lotId)
    decreases |occupants|
  {
    if occupants != [] {
      var init := occupants[..|occupants| - 1];
      var o := occupants[|occupants| - 1];
      NonReservedIn(init, lotId);
      if o.lotId == lotId {
        NonReservedSnoc(OccupantsIn(init, lotId), o);
      } else {
        AppendEmpty(OccupantsIn(init, lotId));
        AppendEmpty(Active(init, lotId));
      }
    }
  }

  /** What the lots.csv loop leaves in lots_data: its keys in insertion order
      and, for each lot id, the last row. */
  ghost predicate LotsRead(lots: seq<Lot>, lotKeys: seq<string>, lotsData: map<string, Lot>) {
    lotKeys == Dedup(LotIdsOf(lots)) && forall id :: Get(lotsData, id) == LastLot(lots, id)
  }

  /** What the lots.csv loop leaves in lots_by_plot: only plots with rows are keys. */
  ghost predicate PlotsRead(lots: seq<Lot>, byPlot: map<string, seq<Lot>>) {
    forall p :: ListAt(byPlot, p) == LotsIn(lots, p) && (p in byPlot ==> byPlot[p] != [])
  }

  /** What the occupants.csv loop leaves in occupants_data. */
  ghost predicate OccupantsRead(occupants: seq<Occupant>, occKeys: seq<string>, occData: map<string, seq<Occupant>>) {
    occKeys == Dedup(OccupantIdsOf(occupants))
    && forall id :: ListAt(occData, id) == OccupantsIn(occupants, id) && (id in occData ==> occData[id] != [])
  }

  lemma LotsReadStep(lots: seq<Lot>, i: nat, lotKeys: seq<string>, lotsData: map<string, Lot>)
    requires i < |lots| && LotsRead(lots[..i], lotKeys, lotsData)
    ensures var id := lots[i].lotId;
      LotsRead(lots[..i + 1], if id in lotsData then lotKeys else lotKeys + [id], lotsData[id := lots[i]])
  {
    var id := lots[i].lotId;
    PrefixSnoc(lots, i);
    var ids := LotIdsOf(lots[..i + 1]);
    SameElements(ids[..i], LotIdsOf(lots[..i]));
    assert id in lotKeys <==> id in lotsData by {
      assert Get(lotsData, id) == LastLot(lots[..i], id);
      if id in lotKeys {
        var j :| 0 <= j < i && LotIdsOf(lots[..i])[j] == id;
        assert lots[..i][j].lotId == id;
      }
    }
    assert Dedup(ids) == if id in lotsData then lotKeys else lotKeys + [id];
    var data := lotsData[id := lots[i]];
    forall k ensures Get(data, k) == LastLot(lots[..i + 1], k) {
      assert Get(lotsData, k) == LastLot(lots[..i], k);
    }
  }

  lemma PlotsReadStep(lots: seq<Lot>, i: nat, byPlot: map<string, seq<Lot>>)
    requires i < |lots| && PlotsRead(lots[..i], byPlot)
    ensures var p := lots[i].plotId;
      PlotsRead(lots[..i + 1], byPlot[p := ListAt(byPlot, p) + [lots[i]]])
  {
    var p := lots[i].plotId;
    PrefixSnoc(lots, i);
    var next := byPlot[p := ListAt(byPlot, p) + [lots[i]]];
    forall q ensures ListAt(next, q) == LotsIn(lots[..i + 1], q) && (q in next ==> next[q] != []) {
      assert ListAt(byPlot, q) == LotsIn(lots[..i], q);
      if q != p { AppendEmpty(LotsIn(lots[..i], q)); }
    }
  }

  /** The lots.csv reading loop. */
  method ReadLots(lots: seq<Lot>) returns (lotKeys: seq<string>, lotsData: map<string, Lot>, byPlot: map<string, seq<Lot>>)
    ensures LotsRead(lots, lotKeys, lotsData) && PlotsRead(lots, byPlot)
  {
    lotKeys, lotsData, byPlot := [], map[], map[];
    var i := 0;
    while i < |lots|
      invariant 0 <= i <= |lots|
      invariant LotsRead(lots[..i], lotKeys, lotsData) && PlotsRead(lots[..i], byPlot)
    {
      var lot := lots[i];
      LotsReadStep(lots, i, lotKeys, lotsData);
      PlotsReadStep(lots, i, byPlot);
      if lot.lotId !in lotsData {
        lotKeys := lotKeys + [lot.lotId];
      }
      lotsData := lotsData[lot.lotId := lot];
      byPlot := byPlot[lot.plotId := ListAt(byPlot, lot.plotId) + [lot]];
      i := i + 1;
    }
    Whole(lots);
  }

  lemma OccupantsReadStep(occupants: seq<Occupant>, i: nat, occKeys: seq<string>, occData: map<string, seq<Occupant>>)
    requires i < |occupants| && OccupantsRead(occupants[..i], occKeys, occData)
    ensures var id := occupants[i].lotId;
      OccupantsRead(occupants[..i + 1], if id in occData then occKeys else occKeys + [id],
                    occData[id := ListAt(occData, id) + [occupants[i]]])
  {
    var id := occupants[i].lotId;
    PrefixSnoc(occupants, i);
    var ids := OccupantIdsOf(occupants[..i + 1]);
    SameElements(ids[..i], OccupantIdsOf(occupants[..i]));
    assert id in occKeys <==> id in occData by {
      assert ListAt(occData, id) == OccupantsIn(occupants[..i], id);
      if id in occKeys {
        var j :| 0 <= j < i && OccupantIdsOf(occupants[..i])[j] == id;
        OccupantsInIff(occupants[..i], id, occupants[..i][j]);
      } else {
        forall j | 0 <= j < i ensures occupants[..i][j].lotId != id {
          assert OccupantIdsOf(occupants[..i])[j] in occKeys;
        }
        OccupantsInNone(occupants[..i], id);
      }
    }
    assert Dedup(ids) == if id in occData then occKeys else occKeys + [id];
    var next := occData[id := ListAt(occData, id) + [occupants[i]]];
    forall k ensures ListAt(next, k) == OccupantsIn(occupants[..i + 1], k) && (k in next ==> next[k] != []) {
      assert ListAt(occData, k) == OccupantsIn(occupants[..i], k);
      if k != id { AppendEmpty(OccupantsIn(occupants[..i], k)); }
    }
  }

  /** The occupants.csv reading loop. */
  method ReadOccupants(occupants: seq<Occupant>) returns (occKeys: seq<string>, occData: map<string, seq<Occupant>>)
    ensures OccupantsRead(occupants, occKeys, occData)
  {
    occKeys, occData := [], map[];
    var i := 0;
    while i < |occupants|
      invariant 0 <= i <= |occupants|
      invariant OccupantsRead(occupants[..i], occKeys, occData)
    {
      var o := occupants[i];
      OccupantsReadStep(occupants, i, occKeys, occData);
      if o.lotId !in occData {
        occKeys := occKeys + [o.lotId];
      }
      occData := occData[o.lotId := ListAt(occData, o.lotId) + [o]];
      i := i + 1;
    }
    Whole(occupants);
  }

  // ---------------------------------------------------------------------------
  // Check 1: available_lots.csv against the status column of lots.csv
  // ---------------------------------------------------------------------------

  datatype Mismatch =
    | PlotMissing(plotId: string)
    | NotListed(plotId: string, lotId: string, lotNumber: int)
    | WronglyListed(plotId: string, lotId: string, lotNumber: int, status: string)

  /** A row of lots.csv with int(lot_number) applied. */
  datatype Numbered = Numbered(lot: Lot, number: Option<int>)

  function NumberedOf(plotLots: seq<Lot>): (r: seq<Numbered>)
    ensures |r| == |plotLots| && forall k :: 0 <= k < |plotLots| ==>
      r[k] == Numbered(plotLots[k], ParseInt(plotLots[k].lotNumber))
  {
    seq(|plotLots|, k requires 0 <= k < |plotLots| => Numbered(plotLots[k], ParseInt(plotLots[k].lotNumber)))
  }

  /** What check 1 reports for one lot of a listed plot whose number parses:
      an Available lot must be listed and any other lot must not be. */
  function LotIssue(plotId: string, nums: seq<int>, x: Numbered): seq<Mismatch> {
    match x.number
    case None => []
    case Some(n) =>
      if x.lot.status == "Available" then (if n !in nums then [NotListed(plotId, x.lot.lotId, n)] else [])
      else (if n in nums then [WronglyListed(plotId, x.lot.lotId, n, x.lot.status)] else [])
  }

  function LotIssues(plotId: string, nums: seq<int>): Numbered -> seq<Mismatch> {
    x => LotIssue(plotId, nums, x)
  }

  /** The inner loop over lots_by_plot[plot_id]: int(lot_number) raises on the
      first lot whose number is not an integer. */
  function PlotMismatches(plotId: string, nums: seq<int>, xs: seq<Numbered>): Result<seq<Mismatch>>
    decreases |xs|
  {
    if xs == [] then Ok([])
    else
      var x := xs[|xs| - 1];
      match PlotMismatches(plotId, nums, xs[..|xs| - 1])
      case Fail(e) => Fail(e)
      case Ok(ms) =>
        if x.number.None? then Fail(IntError(x.lot.lotNumber))
        else Ok(ms + LotIssue(plotId, nums, x))
  }

  /** Row j of lots.csv with its number parsed. */
  function NumberedAt(lots: seq<Lot>, j: nat): Numbered
    requires j < |lots|
  {
    Numbered(lots[j], ParseInt(lots[j].lotNumber))
  }

  /** One listed plot: reported missing when lots.csv has no row for it. */
  function PlotCheck(t: Table, lots: seq<Lot>, plotId: string): Result<seq<Mismatch>> {
    var plotLots := LotsIn(lots, plotId);
    if plotLots == [] then Ok([PlotMissing(plotId)])
    else PlotMismatches(plotId, ListAt(t.lists, plotId), NumberedOf(plotLots))
  }

  function Check1Of(t: Table, lots: seq<Lot>, plotIds: seq<string>): Result<seq<Mismatch>>
    decreases |plotIds|
  {
    if plotIds == [] then Ok([])
    else
      match Check1Of(t, lots, plotIds[..|plotIds| - 1])
      case Fail(e) => Fail(e)
      case Ok(ms) =>
        match PlotCheck(t, lots, plotIds[|plotIds| - 1])
        case Fail(e) => Fail(e)
        case Ok(m) => Ok(ms + m)
  }

  /** Check 1 over available_lots_data in its key order. */
  function Check1(t: Table, lots: seq<Lot>): Result<seq<Mismatch>> {
    Check1Of(t, lots, t.keys)
  }

  /** The issues of one listed plot once every number parses. */
  function PlotIssue(t: Table, lots: seq<Lot>, plotId: string): seq<Mismatch> {
    var plotLots := LotsIn(lots, plotId);
    if plotLots == [] then [PlotMissing(plotId)]
    else FlatMap(NumberedOf(plotLots), LotIssues(plotId, ListAt(t.lists, plotId)))
  }

  function PlotIssues(t: Table, lots: seq<Lot>): string -> seq<Mismatch> {
    p => PlotIssue(t, lots, p)
  }

  lemma {:induction false} PlotMismatchesOk(plotId: string, nums: seq<int>, xs: seq<Numbered>)
    ensures PlotMismatches(plotId, nums, xs).Ok? <==> forall j :: 0 <= j < |xs| ==> xs[j].number.Some?
    decreases |xs|
  {
    if xs != [] {
      var init := xs[..|xs| - 1];
      PlotMismatchesOk(plotId, nums, init);
      assert forall j :: 0 <= j < |init| ==> init[j] == xs[j];
    }
  }

  lemma {:induction false} PlotMismatchesValue(plotId: string, nums: seq<int>, xs: seq<Numbered>)
    requires PlotMismatches(plotId, nums, xs).Ok?
    ensures PlotMismatches(plotId, nums, xs).value == FlatMap(xs, LotIssues(plotId, nums))
    decreases |xs|
  {
    if xs != [] {
      PlotMismatchesValue(plotId, nums, xs[..|xs| - 1]);
    }
  }

  /** A listed plot fails exactly when one of its lots has a number int() rejects. */
  lemma PlotCheckOk(t: Table, lots: seq<Lot>, plotId: string)
    ensures PlotCheck(t, lots, plotId).Ok? <==>
      forall j :: 0 <= j < |lots| && lots[j].plotId == plotId ==> ParseInt(lots[j].lotNumber).Some?
  {
    var plotLots := LotsIn(lots, plotId);
    PlotMismatchesOk(plotId, ListAt(t.lists, plotId), NumberedOf(plotLots));
    forall j | 0 <= j < |lots| && lots[j].plotId == plotId ensures lots[j] in plotLots {
      LotsInIff(lots, plotId, lots[j]);
    }
    forall k | 0 <= k < |plotLots| ensures exists j :: 0 <= j < |lots| && lots[j] == plotLots[k] && lots[j].plotId == plotId {
      LotsInIff(lots, plotId, plotLots[k]);
    }
  }

  lemma PlotCheckValue(t: Table, lots: seq<Lot>, plotId: string)
    requires PlotCheck(t, lots, plotId).Ok?
    ensures PlotCheck(t, lots, plotId).value == PlotIssue(t, lots, plotId)
  {
    if LotsIn(lots, plotId) != [] {
      PlotMismatchesValue(plotId, ListAt(t.lists, plotId), NumberedOf(LotsIn(lots, plotId)));
    }
  }

  lemma {:induction false} Check1OfOk(t: Table, lots: seq<Lot>, plotIds: seq<string>)
    ensures Check1Of(t, lots, plotIds).Ok? <==>
      forall j :: 0 <= j < |lots| && lots[j].plotId in plotIds ==> ParseInt(lots[j].lotNumber).Some?
    decreases |plotIds|
  {
    if plotIds != [] {
      var init := plotIds[..|plotIds| - 1];
      var p := plotIds[|plotIds| - 1];
      Check1OfOk(t, lots, init);
      PlotCheckOk(t, lots, p);
      assert plotIds == init + [p];
      forall j | 0 <= j < |lots| ensures lots[j].plotId in plotIds <==> lots[j].plotId in init || lots[j].plotId == p {
        InAppend(lots[j].plotId, init, [p]);
      }
    }
  }

  lemma {:induction false} Check1OfValue(t: Table, lots: seq<Lot>, plotIds: seq<string>)
    requires Check1Of(t, lots, plotIds).Ok?
    ensures Check1Of(t, lots, plotIds).value == FlatMap(plotIds, PlotIssues(t, lots))
    decreases |plotIds|
  {
    if plotIds != [] {
      Check1OfValue(t, lots, plotIds[..|plotIds| - 1]);
      PlotCheckValue(t, lots, plotIds[|plotIds| - 1]);
    }
  }

  /** Check 1 raises exactly when some lot of a listed plot has a lot number
      int() rejects; lots of plots that are not listed are never parsed. */
  lemma Check1Fails(t: Table, lots: seq<Lot>)
    ensures Check1(t, lots).Fail? <==>
      exists j :: 0 <= j < |lots| && lots[j].plotId in t.keys && ParseInt(lots[j].lotNumber).None?
  {
    Check1OfOk(t, lots, t.keys);
  }

  lemma {:induction false} PlotIssueOf(t: Table, lots: seq<Lot>, q: string, m: Mismatch)
    requires m in PlotIssue(t, lots, q)
    ensures m.plotId == q
  {
    var plotLots := LotsIn(lots, q);
    if plotLots != [] {
      FlatMapIff(NumberedOf(plotLots), LotIssues(q, ListAt(t.lists, q)), m);
    }
  }

  /** Every mismatch names a plot of available_lots.csv. */
  lemma Check1OnlyListed(t: Table, lots: seq<Lot>, m: Mismatch)
    requires Check1(t, lots).Ok? && m in Check1(t, lots).value
    ensures m.plotId in t.keys
  {
    Check1OfValue(t, lots, t.keys);
    FlatMapIff(t.keys, PlotIssues(t, lots), m);
    var i :| 0 <= i < |t.keys| && m in PlotIssues(t, lots)(t.keys[i]);
    PlotIssueOf(t, lots, t.keys[i], m);
  }

  /** A listed plot is reported missing exactly when lots.csv has no row for it. */
  lemma PlotMissingIff(t: Table, lots: seq<Lot>, plotId: string)
    requires Check1(t, lots).Ok?
    ensures PlotMissing(plotId) in Check1(t, lots).value <==>
      plotId in t.keys && forall j :: 0 <= j < |lots| ==> lots[j].plotId != plotId
  {
    var m := PlotMissing(plotId);
    Check1OfValue(t, lots, t.keys);
    FlatMapIff(t.keys, PlotIssues(t, lots), m);
    if m in Check1(t, lots).value {
      var i :| 0 <= i < |t.keys| && m in PlotIssue(t, lots, t.keys[i]);
      PlotIssueOf(t, lots, t.keys[i], m);
      PlotMissingOnlyEmpty(t, lots, plotId);
      forall j | 0 <= j < |lots| ensures lots[j].plotId != plotId {
        LotsInIff(lots, plotId, lots[j]);
      }
    } else if plotId in t.keys {
      var i :| 0 <= i < |t.keys| && t.keys[i] == plotId;
      assert m !in PlotIssue(t, lots, plotId);
      var lot := LotsIn(lots, plotId)[0];
      LotsInIff(lots, plotId, lot);
    }
  }

  lemma PlotMissingOnlyEmpty(t: Table, lots: seq<Lot>, plotId: string)
    ensures PlotMissing(plotId) in PlotIssue(t, lots, plotId) ==> LotsIn(lots, plotId) == []
  {
    var plotLots := LotsIn(lots, plotId);
    if plotLots != [] {
      var nums := ListAt(t.lists, plotId);
      var xs := NumberedOf(plotLots);
      FlatMapIff(xs, LotIssues(plotId, nums), PlotMissing(plotId));
      forall k | 0 <= k < |xs| ensures PlotMissing(plotId) !in LotIssues(plotId, nums)(xs[k]) {
      }
    }
  }

  /** A mismatch about a lot comes from a row of the plot in lots.csv. */
  lemma PlotIssueMember(t: Table, lots: seq<Lot>, q: string, m: Mismatch)
    requires !m.PlotMissing?
    ensures m in PlotIssue(t, lots, q) <==>
      exists j :: 0 <= j < |lots| && lots[j].plotId == q && m in LotIssue(q, ListAt(t.lists, q), NumberedAt(lots, j))
  {
    var plotLots := LotsIn(lots, q);
    var nums := ListAt(t.lists, q);
    if plotLots == [] {
      forall j | 0 <= j < |lots| ensures lots[j].plotId != q {
        LotsInIff(lots, q, lots[j]);
      }
    } else {
      var xs := NumberedOf(plotLots);
      FlatMapIff(xs, LotIssues(q, nums), m);
      if m in PlotIssue(t, lots, q) {
        var k :| 0 <= k < |xs| && m in LotIssues(q, nums)(xs[k]);
        LotsInIff(lots, q, plotLots[k]);
        var j :| 0 <= j < |lots| && lots[j] == plotLots[k];
        assert xs[k] == NumberedAt(lots, j);
        assert lots[j].plotId == q && m in LotIssue(q, nums, NumberedAt(lots, j));
      } else {
        forall j | 0 <= j < |lots| && lots[j].plotId == q ensures m !in LotIssue(q, nums, NumberedAt(lots, j)) {
          LotsInIff(lots, q, lots[j]);
          var k :| 0 <= k < |plotLots| && plotLots[k] == lots[j];
          assert xs[k] == NumberedAt(lots, j);
          assert m !in LotIssues(q, nums)(xs[k]);
        }
      }
    }
  }

  /** A lot mismatch is reported exactly for the rows of listed plots that
      LotIssue flags. */
  lemma Check1Member(t: Table, lots: seq<Lot>, m: Mismatch)
    requires Check1(t, lots).Ok? && !m.PlotMissing?
    ensures m in Check1(t, lots).value <==>
      m.plotId in t.keys &&
      exists j :: 0 <= j < |lots| && lots[j].plotId == m.plotId
        && m in LotIssue(m.plotId, ListAt(t.lists, m.plotId), NumberedAt(lots, j))
  {
    Check1OfValue(t, lots, t.keys);
    FlatMapIff(t.keys, PlotIssues(t, lots), m);
    PlotIssueMember(t, lots, m.plotId, m);
    if m in Check1(t, lots).value {
      var i :| 0 <= i < |t.keys| && m in PlotIssues(t, lots)(t.keys[i]);
      PlotIssueOf(t, lots, t.keys[i], m);
    } else if m.plotId in t.keys {
      var i :| 0 <= i < |t.keys| && t.keys[i] == m.plotId;
      assert m !in PlotIssues(t, lots)(t.keys[i]);
    }
  }

  /** An Available lot of a listed plot is reported exactly when its number is
      missing from the plot's list. */
  lemma NotListedIff(t: Table, lots: seq<Lot>, plotId: string, lotId: string, n: int)
    requires Check1(t, lots).Ok?
    ensures NotListed(plotId, lotId, n) in Check1(t, lots).value <==>
      plotId in t.keys && n !in ListAt(t.lists, plotId) &&
      exists j :: 0 <= j < |lots| && lots[j].plotId == plotId && lots[j].lotId == lotId
        && lots[j].status == "Available" && ParseInt(lots[j].lotNumber) == Some(n)
  {
    var m := NotListed(plotId, lotId, n);
    Check1Member(t, lots, m);
    forall j | 0 <= j < |lots| ensures m in LotIssue(plotId, ListAt(t.lists, plotId), NumberedAt(lots, j)) <==>
      lots[j].lotId == lotId && lots[j].status == "Available" && ParseInt(lots[j].lotNumber) == Some(n)
        && n !in ListAt(t.lists, plotId)
    {
    }
  }

  /** A lot of a listed plot that is not Available is reported exactly when its
      number is on the plot's list. */
  lemma WronglyListedIff(t: Table, lots: seq<Lot>, plotId: string, lotId: string, n: int, status: string)
    requires Check1(t, lots).Ok?
    ensures WronglyListed(plotId, lotId, n, status) in Check1(t, lots).value <==>
      plotId in t.keys && n in ListAt(t.lists, plotId) && status != "Available" &&
      exists j :: 0 <= j < |lots| && lots[j].plotId == plotId && lots[j].lotId == lotId
        && lots[j].status == status && ParseInt(lots[j].lotNumber) == Some(n)
  {
    var m := WronglyListed(plotId, lotId, n, status);
    Check1Member(t, lots, m);
    forall j | 0 <= j < |lots| ensures m in LotIssue(plotId, ListAt(t.lists, plotId), NumberedAt(lots, j)) <==>
      lots[j].lotId == lotId && lots[j].status == status && status != "Available"
        && ParseInt(lots[j].lotNumber) == Some(n) && n in ListAt(t.lists, plotId)
    {
    }
  }

  lemma {:induction false} PlotMismatchesFailPrefix(plotId: string, nums: seq<int>, xs: seq<Numbered>, k: nat)
    requires k <= |xs| && PlotMismatches(plotId, nums, xs[..k]).Fail?
    ensures PlotMismatches(plotId, nums, xs) == PlotMismatches(plotId, nums, xs[..k])
    decreases |xs| - k
  {
    if k < |xs| {
      var init := xs[..|xs| - 1];
      assert init[..k] == xs[..k];
      PlotMismatchesFailPrefix(plotId, nums, init, k);
    } else {
      assert xs[..k] == xs;
    }
  }

  lemma {:induction false} Check1OfFailPrefix(t: Table, lots: seq<Lot>, plotIds: seq<string>, k: nat)
    requires k <= |plotIds| && Check1Of(t, lots, plotIds[..k]).Fail?
    ensures Check1Of(t, lots, plotIds) == Check1Of(t, lots, plotIds[..k])
    decreases |plotIds| - k
  {
    if k < |plotIds| {
      var init := plotIds[..|plotIds| - 1];
      assert init[..k] == plotIds[..k];
      Check1OfFailPrefix(t, lots, init, k);
    } else {
      assert plotIds[..k] == plotIds;
    }
  }

  lemma PlotMismatchesSnoc(plotId: string, nums: seq<int>, xs: seq<Numbered>, i: nat, ms: seq<Mismatch>)
    requires i < |xs| && PlotMismatches(plotId, nums, xs[..i]) == Ok(ms)
    ensures PlotMismatches(plotId, nums, xs[..i + 1]) ==
      if xs[i].number.None? then Fail(IntError(xs[i].lot.lotNumber)) else Ok(ms + LotIssue(plotId, nums, xs[i]))
  {
    PrefixSnoc(xs, i);
  }

  /** The loop over one listed plot's lots. */
  method CheckPlot(plotId: string, nums: seq<int>, plotLots: seq<Lot>) returns (r: Result<seq<Mismatch>>)
    ensures r == PlotMismatches(plotId, nums, NumberedOf(plotLots))
  {
    ghost var xs := NumberedOf(plotLots);
    var ms: seq<Mismatch> := [];
    var i := 0;
    while i < |plotLots|
      invariant 0 <= i <= |plotLots|
      invariant PlotMismatches(plotId, nums, xs[..i]) == Ok(ms)
    {
      var x := Numbered(plotLots[i], ParseInt(plotLots[i].lotNumber));
      assert xs[i] == x;
      PlotMismatchesSnoc(plotId, nums, xs, i, ms);
      if x.number.None? {
        PlotMismatchesFailPrefix(plotId, nums, xs, i + 1);
        return Fail(IntError(x.lot.lotNumber));
      }
      ms := ms + LotIssue(plotId, nums, x);
      i := i + 1;
    }
    Whole(xs);
    return Ok(ms);
  }

  /** Check 1: the loop over available_lots_data, looking each plot up in
      lots_by_plot. */
  method CheckAvailable(t: Table, lots: seq<Lot>, byPlot: map<string, seq<Lot>>) returns (r: Result<seq<Mismatch>>)
    requires forall p :: p in t.keys ==> p in t.lists
    requires PlotsRead(lots, byPlot)
    ensures r == Check1(t, lots)
  {
    var ms: seq<Mismatch> := [];
    var i := 0;
    while i < |t.keys|
      invariant 0 <= i <= |t.keys|
      invariant Check1Of(t, lots, t.keys[..i]) == Ok(ms)
    {
      var plotId := t.keys[i];
      PrefixSnoc(t.keys, i);
      assert ListAt(byPlot, plotId) == LotsIn(lots, plotId);
      if plotId !in byPlot {
        ms := ms + [PlotMissing(plotId)];
      } else {
        var m := CheckPlot(plotId, t.lists[plotId], byPlot[plotId]);
        if m.Fail? {
          Check1OfFailPrefix(t, lots, t.keys, i + 1);
          return Fail(m.error);
        }
        ms := ms + m.value;
      }
      i := i + 1;
    }
    Whole(t.keys);
    return Ok(ms);
  }

  // ---------------------------------------------------------------------------
  // Check 2: the status column of lots.csv against the occupants
  // ---------------------------------------------------------------------------

  datatype StatusMismatch = StatusMismatch(lotId: string, status: string, occupants: nat)

  /** A status that the number of actual (non-Reserved) occupants contradicts. */
  predicate Contradicts(status: string, actual: nat) {
    (status == "Available" && actual > 0)
    || ((status == "Occupied" || status == "Fully Occupied" || status == "Partially Occupied") && actual == 0)
  }

  /** The if/elif chain of check 2 for one lot. */
  function StatusCheck(lotId: string, status: string, actual: nat): (r: seq<StatusMismatch>)
    ensures r == if Contradicts(status, actual) then [StatusMismatch(lotId, status, actual)] else []
  {
    if status == "Available" then
      (if actual > 0 then [StatusMismatch(lotId, status, actual)] else [])
    else if status == "Occupied" || status == "Fully Occupied" then
      (if actual == 0 then [StatusMismatch(lotId, status, actual)] else [])
    else if status == "Partially Occupied" then
      (if actual == 0 then [StatusMismatch(lotId, status, actual)] else [])
    else []
  }

  /** Check 2 for one key of lots_data. */
  function StatusIssue(lots: seq<Lot>, occupants: seq<Occupant>, lotId: string): seq<StatusMismatch> {
    match LastLot(lots, lotId)
    case None => []
    case Some(lot) => StatusCheck(lotId, lot.status, |Active(occupants, lotId)|)
  }

  function StatusIssues(lots: seq<Lot>, occupants: seq<Occupant>): string -> seq<StatusMismatch> {
    id => StatusIssue(lots, occupants, id)
  }

  /** Check 2 over lots_data in its key order. */
  function Check2(lots: seq<Lot>, occupants: seq<Occupant>): seq<StatusMismatch> {
    FlatMap(Dedup(LotIdsOf(lots)), StatusIssues(lots, occupants))
  }

  /** A lot id occurs in lots.csv exactly when it is a key of lots_data. */
  lemma LotIdListed(lots: seq<Lot>, lotId: string)
    ensures lotId in Dedup(LotIdsOf(lots)) <==> LastLot(lots, lotId).Some?
  {
    var ids := LotIdsOf(lots);
    if lotId in Dedup(ids) {
      var j :| 0 <= j < |ids| && ids[j] == lotId;
      assert lots[j].lotId == lotId;
    } else {
      forall j | 0 <= j < |lots| ensures lots[j].lotId != lotId {
        assert ids[j] in Dedup(ids);
      }
    }
  }

  /** A lot is reported exactly when the last row for its id carries a status
      that its count of non-Reserved occupants contradicts; the count and the
      status in the report are those. */
  lemma StatusMismatchIff(lots: seq<Lot>, occupants: seq<Occupant>, m: StatusMismatch)
    ensures m in Check2(lots, occupants) <==>
      LastLot(lots, m.lotId).Some? && m.status == LastLot(lots, m.lotId).value.status
      && m.occupants == |Active(occupants, m.lotId)| && Contradicts(m.status, m.occupants)
  {
    var ids := Dedup(LotIdsOf(lots));
    FlatMapIff(ids, StatusIssues(lots, occupants), m);
    LotIdListed(lots, m.lotId);
    if m in Check2(lots, occupants) {
      var i :| 0 <= i < |ids| && m in StatusIssues(lots, occupants)(ids[i]);
      assert m in StatusIssue(lots, occupants, ids[i]);
    } else if LastLot(lots, m.lotId).Some? {
      var i :| 0 <= i < |ids| && ids[i] == m.lotId;
      assert m !in StatusIssue(lots, occupants, ids[i]);
    }
  }

  /** Lots marked Unoccupied, Reserved or Not Available are never reported,
      whatever their occupants. */
  lemma OtherStatusesPass(lots: seq<Lot>, occupants: seq<Occupant>, m: StatusMismatch)
    requires m in Check2(lots, occupants)
    ensures m.status in ["Available", "Occupied", "Fully Occupied", "Partially Occupied"]
  {
    StatusMismatchIff(lots, occupants, m);
  }

  /** Check 2: the loop over lots_data, counting each lot's non-Reserved
      occupants in occupants_data. */
  method CheckStatuses(lots: seq<Lot>, occupants: seq<Occupant>, lotKeys: seq<string>, lotsData: map<string, Lot>,
                       occKeys: seq<string>, occData: map<string, seq<Occupant>>) returns (r: seq<StatusMismatch>)
    requires LotsRead(lots, lotKeys, lotsData) && OccupantsRead(occupants, occKeys, occData)
    ensures r == Check2(lots, occupants)
  {
    r := [];
    var i := 0;
    while i < |lotKeys|
      invariant 0 <= i <= |lotKeys|
      invariant r == FlatMap(lotKeys[..i], StatusIssues(lots, occupants))
    {
      var lotId := lotKeys[i];
      FlatMapSnoc(lotKeys, StatusIssues(lots, occupants), i);
      LotIdListed(lots, lotId);
      assert Get(lotsData, lotId) == LastLot(lots, lotId);
      var lot := lotsData[lotId];
      var lotOccupants := ListAt(occData, lotId);
      NonReservedIn(occupants, lotId);
      var actual := NonReserved(lotOccupants);
      r := r + StatusCheck(lotId, lot.status, |actual|);
      i := i + 1;
    }
    Whole(lotKeys);
  }

  // ---------------------------------------------------------------------------
  // Checks 3 and 4: occupants of unknown lots, and lots with several occupants
  // ---------------------------------------------------------------------------

  datatype Orphan = Orphan(lotId: string, name: string, status: string)

  function OrphanRows(os: seq<Occupant>): (r: seq<Orphan>)
    ensures |r| == |os| && forall k :: 0 <= k < |os| ==> r[k] == Orphan(os[k].lotId, os[k].name, os[k].status)
  {
    seq(|os|, k requires 0 <= k < |os| => Orphan(os[k].lotId, os[k].name, os[k].status))
  }

  /** Check 3 for one key of occupants_data: every occupant of a lot id that
      lots_data lacks. */
  function OrphanIssue(lots: seq<Lot>, occupants: seq<Occupant>, lotId: string): seq<Orphan> {
    if LastLot(lots, lotId).None? then OrphanRows(OccupantsIn(occupants, lotId)) else []
  }

  function OrphanIssues(lots: seq<Lot>, occupants: seq<Occupant>): string -> seq<Orphan> {
    id => OrphanIssue(lots, occupants, id)
  }

  /** Check 3 over occupants_data in its key order. */
  function Check3(lots: seq<Lot>, occupants: seq<Occupant>): seq<Orphan> {
    FlatMap(Dedup(OccupantIdsOf(occupants)), OrphanIssues(lots, occupants))
  }

  /** An occupant's lot id is a key of occupants_data. */
  lemma OccupantIdListed(occupants: seq<Occupant>, j: nat)
    requires j < |occupants|
    ensures occupants[j].lotId in Dedup(OccupantIdsOf(occupants))
  {
    assert OccupantIdsOf(occupants)[j] == occupants[j].lotId;
  }

  /** An orphan is reported exactly for an occupant, of any status, whose lot
      id has no row in lots.csv. */
  lemma OrphanIff(lots: seq<Lot>, occupants: seq<Occupant>, x: Orphan)
    ensures x in Check3(lots, occupants) <==>
      (forall j :: 0 <= j < |lots| ==> lots[j].lotId != x.lotId) &&
      exists j :: 0 <= j < |occupants| && occupants[j].lotId == x.lotId
        && occupants[j].name == x.name && occupants[j].status == x.status
  {
    if x in Check3(lots, occupants) {
      OrphanReported(lots, occupants, x);
    } else if LastLot(lots, x.lotId).None? {
      forall j | 0 <= j < |occupants| && occupants[j].lotId == x.lotId
        ensures occupants[j].name != x.name || occupants[j].status != x.status
      {
        if occupants[j].name == x.name && occupants[j].status == x.status {
          OrphanComplete(lots, occupants, j);
        }
      }
    }
  }

  lemma OrphanReported(lots: seq<Lot>, occupants: seq<Occupant>, x: Orphan)
    requires x in Check3(lots, occupants)
    ensures LastLot(lots, x.lotId).None?
    ensures exists j ::
      0 <= j < |occupants| && occupants[j].lotId == x.lotId && occupants[j].name == x.name && occupants[j].status == x.status
  {
    var ids := Dedup(OccupantIdsOf(occupants));
    FlatMapIff(ids, OrphanIssues(lots, occupants), x);
    var i :| 0 <= i < |ids| && x in OrphanIssues(lots, occupants)(ids[i]);
    var os := OccupantsIn(occupants, ids[i]);
    var k :| 0 <= k < |os| && OrphanRows(os)[k] == x;
    OccupantsInIff(occupants, ids[i], os[k]);
    var j :| 0 <= j < |occupants| && occupants[j] == os[k];
    assert occupants[j].lotId == x.lotId && occupants[j].name == x.name && occupants[j].status == x.status;
  }

  lemma OrphanComplete(lots: seq<Lot>, occupants: seq<Occupant>, j: nat)
    requires j < |occupants| && LastLot(lots, occupants[j].lotId).None?
    ensures Orphan(occupants[j].lotId, occupants[j].name, occupants[j].status) in Check3(lots, occupants)
  {
    var o := occupants[j];
    var x := Orphan(o.lotId, o.name, o.status);
    var ids := Dedup(OccupantIdsOf(occupants));
    OccupantIdListed(occupants, j);
    var i :| 0 <= i < |ids| && ids[i] == o.lotId;
    var os := OccupantsIn(occupants, o.lotId);
    OccupantsInIff(occupants, o.lotId, o);
    var k :| 0 <= k < |os| && os[k] == o;
    assert OrphanRows(os)[k] == x;
    assert x in OrphanIssues(lots, occupants)(ids[i]);
    FlatMapIff(ids, OrphanIssues(lots, occupants), x);
  }

  datatype Shared = Shared(lotId: string, count: nat, names: seq<string>)

  function NamesOf(os: seq<Occupant>): (r: seq<string>)
    ensures |r| == |os| && forall k :: 0 <= k < |os| ==> r[k] == os[k].name
  {
    seq(|os|, k requires 0 <= k < |os| => os[k].name)
  }

  /** Check 4 for one key of occupants_data. */
  function SharedIssue(occupants: seq<Occupant>, lotId: string): seq<Shared> {
    var os := OccupantsIn(occupants, lotId);
    if |os| > 1 then [Shared(lotId, |os|, NamesOf(os))] else []
  }

  function SharedIssues(occupants: seq<Occupant>): string -> seq<Shared> {
    id => SharedIssue(occupants, id)
  }

  /** Check 4 over occupants_data in its key order. */
  function Check4(occupants: seq<Occupant>): seq<Shared> {
    FlatMap(Dedup(OccupantIdsOf(occupants)), SharedIssues(occupants))
  }

  /** A lot is reported shared exactly when more than one occupant row names
      it, Reserved ones counted; the report lists all their names in file order. */
  lemma SharedIff(occupants: seq<Occupant>, x: Shared)
    ensures x in Check4(occupants) <==>
      var os := OccupantsIn(occupants, x.lotId);
      |os| > 1 && x.count == |os| && x.names == NamesOf(os)
  {
    if x in Check4(occupants) {
      SharedReported(occupants, x);
    } else if |OccupantsIn(occupants, x.lotId)| > 1 {
      SharedComplete(occupants, x.lotId);
    }
  }

  lemma SharedReported(occupants: seq<Occupant>, x: Shared)
    requires x in Check4(occupants)
    ensures var os := OccupantsIn(occupants, x.lotId);
      |os| > 1 && x.count == |os| && x.names == NamesOf(os)
  {
    var ids := Dedup(OccupantIdsOf(occupants));
    FlatMapIff(ids, SharedIssues(occupants), x);
    var i :| 0 <= i < |ids| && x in SharedIssues(occupants)(ids[i]);
    assert x in SharedIssue(occupants, ids[i]);
  }

  lemma SharedComplete(occupants: seq<Occupant>, lotId: string)
    requires |OccupantsIn(occupants, lotId)| > 1
    ensures var os := OccupantsIn(occupants, lotId);
      Shared(lotId, |os|, NamesOf(os)) in Check4(occupants)
  {
    var ids := Dedup(OccupantIdsOf(occupants));
    var os := OccupantsIn(occupants, lotId);
    var x := Shared(lotId, |os|, NamesOf(os));
    OccupantsInIff(occupants, lotId, os[0]);
    var j :| 0 <= j < |occupants| && occupants[j] == os[0];
    OccupantIdListed(occupants, j);
    var i :| 0 <= i < |ids| && ids[i] == lotId;
    assert x in SharedIssues(occupants)(ids[i]);
    FlatMapIff(ids, SharedIssues(occupants), x);
  }

  /** Check 3: the loop over occupants_data, with an inner loop over the
      occupants of a lot id that lots_data lacks. */
  method CheckOrphans(lots: seq<Lot>, occupants: seq<Occupant>, lotKeys: seq<string>, lotsData: map<string, Lot>,
                      occKeys: seq<string>, occData: map<string, seq<Occupant>>) returns (r: seq<Orphan>)
    requires LotsRead(lots, lotKeys, lotsData) && OccupantsRead(occupants, occKeys, occData)
    ensures r == Check3(lots, occupants)
  {
    r := [];
    var i := 0;
    while i < |occKeys|
      invariant 0 <= i <= |occKeys|
      invariant r == FlatMap(occKeys[..i], OrphanIssues(lots, occupants))
    {
      var lotId := occKeys[i];
      FlatMapSnoc(occKeys, OrphanIssues(lots, occupants), i);
      assert Get(lotsData, lotId) == LastLot(lots, lotId);
      if lotId !in lotsData {
        var os := ListAt(occData, lotId);
        assert os == OccupantsIn(occupants, lotId);
        OccupantsOfLot(occupants, lotId);
        var rows := OrphansOfLot(lotId, os);
        r := r + rows;
      } else {
        AppendEmpty(r);
      }
      i := i + 1;
    }
    Whole(occKeys);
  }

  /** Check 4: the loop over occupants_data. */
  method CheckShared(occupants: seq<Occupant>, occKeys: seq<string>, occData: map<string, seq<Occupant>>)
    returns (r: seq<Shared>)
    requires OccupantsRead(occupants, occKeys, occData)
    ensures r == Check4(occupants)
  {
    r := [];
    var i := 0;
    while i < |occKeys|
      invariant 0 <= i <= |occKeys|
      invariant r == FlatMap(occKeys[..i], SharedIssues(occupants))
    {
      var lotId := occKeys[i];
      FlatMapSnoc(occKeys, SharedIssues(occupants), i);
      var os := ListAt(occData, lotId);
      assert os == OccupantsIn(occupants, lotId);
      if |os| > 1 {
        r := r + [Shared(lotId, |os|, NamesOf(os))];
      } else {
        AppendEmpty(r);
      }
      i := i + 1;
    }
    Whole(occKeys);
  }

  lemma OccupantsOfLot(occupants: seq<Occupant>, lotId: string)
    ensures forall k :: 0 <= k < |OccupantsIn(occupants, lotId)| ==> OccupantsIn(occupants, lotId)[k].lotId == lotId
  {
    var os := OccupantsIn(occupants, lotId);
    forall k | 0 <= k < |os| ensures os[k].lotId == lotId {
      OccupantsInIff(occupants, lotId, os[k]);
    }
  }

  /** The inner loop of check 3 over the occupants of one unknown lot id. */
  method OrphansOfLot(lotId: string, os: seq<Occupant>) returns (rows: seq<Orphan>)
    requires forall k :: 0 <= k < |os| ==> os[k].lotId == lotId
    ensures rows == OrphanRows(os)
  {
    rows := [];
    var k := 0;
    while k < |os|
      invariant 0 <= k <= |os|
      invariant rows == OrphanRows(os)[..k]
    {
      var o := os[k];
      PrefixSnoc(OrphanRows(os), k);
      rows := rows + [Orphan(lotId, o.name, o.status)];
      k := k + 1;
    }
    Whole(OrphanRows(os));
  }

  // ---------------------------------------------------------------------------
  // validate_data
  // ---------------------------------------------------------------------------

  /** The dictionary validate_data returns. */
  datatype Report = Report(mismatches: seq<Mismatch>, statusMismatches: seq<StatusMismatch>,
                           orphaned: seq<Orphan>, sharedLots: seq<Shared>)

  /** "All validation checks passed": shared lots are reported but do not fail
      the validation. */
  predicate Passed(r: Report) {
    r.mismatches == [] && r.statusMismatches == [] && r.orphaned == []
  }

  /** validate_data on the rows of the three files, or the ValueError that
      stops it. */
  function ValidationOf(rows: seq<AvailableRow>, lots: seq<Lot>, occupants: seq<Occupant>): Result<Report> {
    match AvailableOf(rows)
    case Fail(e) => Fail(e)
    case Ok(t) =>
      match Check1(t, lots)
      case Fail(e) => Fail(e)
      case Ok(ms) => Ok(Report(ms, Check2(lots, occupants), Check3(lots, occupants), Check4(occupants)))
  }

  /** validate_data: read the three files, run the four checks, and say whether
      the first three found nothing. */
  method ValidateData(rows: seq<AvailableRow>, lots: seq<Lot>, occupants: seq<Occupant>)
    returns (r: Result<Report>, passed: bool)
    ensures r == ValidationOf(rows, lots, occupants)
    ensures passed <==> r.Ok? && Passed(r.value)
  {
    var available := ReadAvailable(rows);
    if available.Fail? {
      return Fail(available.error), false;
    }
    var t := available.value;
    var lotKeys, lotsData, byPlot := ReadLots(lots);
    var occKeys, occData := ReadOccupants(occupants);
    var check1 := CheckAvailable(t, lots, byPlot);
    if check1.Fail? {
      return Fail(check1.error), false;
    }
    var check2 := CheckStatuses(lots, occupants, lotKeys, lotsData, occKeys, occData);
    var check3 := CheckOrphans(lots, occupants, lotKeys, lotsData, occKeys, occData);
    var check4 := CheckShared(occupants, occKeys, occData);
    r := Ok(Report(check1.value, check2, check3, check4));
    passed := |check1.value| == 0 && |check2| == 0 && |check3| == 0;
  }

  // ---------------------------------------------------------------------------
  // validate_data after fix_lot_status
  // ---------------------------------------------------------------------------

  /** When every row of a plot parses to the same list, that list is the one kept. */
  lemma {:induction false} TableUniform(es: seq<Entry>, plotId: string, ns: seq<int>)
    requires TableOf(es).Ok? && plotId in TableOf(es).value.lists
    requires forall k :: 0 <= k < |es| && es[k].plotId == plotId ==> es[k].parsed == Some(ns)
    ensures TableOf(es).value.lists[plotId] == ns
    decreases |es|
  {
    var last := es[|es| - 1];
    if last.plotId != plotId {
      var init := es[..|es| - 1];
      assert forall k :: 0 <= k < |init| ==> init[k] == es[k];
      TableUniform(init, plotId, ns);
    }
  }

  /** Every row fix_lot_status writes parses back to its plot's sorted numbers. */
  lemma RegeneratedRows(lots: seq<Lot>)
    requires AvailableTable(lots).Ok?
    ensures var rows := AvailableTable(lots).value;
      forall i :: 0 <= i < |rows| ==>
        ParseAvailableLots(rows[i].lotsAvailable) == Some(SortInts(Numbers(lots, rows[i].plotId)))
  {
    TableContents(lots);
    var rows := AvailableTable(lots).value;
    forall i | 0 <= i < |rows|
      ensures ParseAvailableLots(rows[i].lotsAvailable) == Some(SortInts(Numbers(lots, rows[i].plotId)))
    {
      ParseJoinInts(SortInts(Numbers(lots, rows[i].plotId)));
    }
  }

  /** Reading back the available_lots.csv that fix_lot_status writes succeeds. */
  lemma RegeneratedReads(lots: seq<Lot>)
    requires AvailableTable(lots).Ok?
    ensures AvailableOf(AvailableTable(lots).value).Ok?
  {
    RegeneratedRows(lots);
    AvailableFail(AvailableTable(lots).value);
  }

  /** Its keys are exactly the plots with an Available lot. */
  lemma RegeneratedKeys(lots: seq<Lot>, p: string)
    requires AvailableTable(lots).Ok? && AvailableOf(AvailableTable(lots).value).Ok?
    ensures p in AvailableOf(AvailableTable(lots).value).value.keys <==> HasAvailable(lots, p)
  {
    var rows := AvailableTable(lots).value;
    TableContents(lots);
    AvailableKeys(rows);
    RowsListed(rows, p);
  }

  /** A plot is a key of available_lots_data exactly when some row names it. */
  lemma RowsListed(rows: seq<AvailableRow>, p: string)
    ensures p in Dedup(PlotIdsOf(rows)) <==> Listed(rows, p)
  {
    var ids := PlotIdsOf(rows);
    if p in Dedup(ids) {
      var i :| 0 <= i < |ids| && ids[i] == p;
      assert rows[i].plotId == p;
    } else {
      forall i | 0 <= i < |rows| ensures rows[i].plotId != p {
        assert ids[i] in Dedup(ids);
      }
    }
  }

  /** Each of its plots reads back as that plot's sorted numbers. */
  lemma RegeneratedLists(lots: seq<Lot>, p: string)
    requires AvailableTable(lots).Ok? && AvailableOf(AvailableTable(lots).value).Ok?
    requires p in AvailableOf(AvailableTable(lots).value).value.keys
    ensures p in AvailableOf(AvailableTable(lots).value).value.lists
    ensures AvailableOf(AvailableTable(lots).value).value.lists[p] == SortInts(Numbers(lots, p))
  {
    var rows := AvailableTable(lots).value;
    RegeneratedRows(lots);
    TableUniform(Entries(rows), p, SortInts(Numbers(lots, p)));
  }

  /** Lot numbers are integers, and no two rows of one plot share one. */
  ghost predicate NumberedLots(lots: seq<Lot>) {
    (forall j :: 0 <= j < |lots| ==> ParseInt(lots[j].lotNumber).Some?)
    && forall i, j :: 0 <= i < j < |lots| && lots[i].plotId == lots[j].plotId ==>
         ParseInt(lots[i].lotNumber) != ParseInt(lots[j].lotNumber)
  }

  /** Check 1 finds nothing wrong with the available_lots.csv that
      fix_lot_status regenerates from the same lots. */
  lemma RegeneratedPassesCheck1(lots: seq<Lot>)
    requires NumberedLots(lots)
    ensures AvailableTable(lots).Ok? && AvailableOf(AvailableTable(lots).value).Ok?
    ensures Check1(AvailableOf(AvailableTable(lots).value).value, lots) == Ok([])
  {
    var t := Regenerated(lots);
    var ms := Check1(t, lots).value;
    forall m | true ensures m !in ms {
      match m
      case PlotMissing(p) => NoPlotMissing(lots, p);
      case NotListed(p, id, n) => NoNotListed(lots, p, id, n);
      case WronglyListed(p, id, n, status) => NoWronglyListed(lots, p, id, n, status);
    }
    NothingIn(ms);
  }

  /** The regenerated table read back, when every lot number parses. */
  function Regenerated(lots: seq<Lot>): (t: Table)
    requires NumberedLots(lots)
    ensures AvailableTable(lots).Ok? && AvailableOf(AvailableTable(lots).value) == Ok(t)
    ensures Check1(t, lots).Ok?
  {
    TableContents(lots);
    RegeneratedReads(lots);
    var t := AvailableOf(AvailableTable(lots).value).value;
    Check1Fails(t, lots);
    t
  }

  lemma NoPlotMissing(lots: seq<Lot>, p: string)
    requires NumberedLots(lots)
    ensures PlotMissing(p) !in Check1(Regenerated(lots), lots).value
  {
    var t := Regenerated(lots);
    PlotMissingIff(t, lots, p);
    RegeneratedKeys(lots, p);
    if p in t.keys {
      var j :| 0 <= j < |lots| && IsAvailableIn(lots[j], p);
    }
  }

  lemma NoNotListed(lots: seq<Lot>, p: string, id: string, n: int)
    requires NumberedLots(lots)
    ensures NotListed(p, id, n) !in Check1(Regenerated(lots), lots).value
  {
    var t := Regenerated(lots);
    NotListedIff(t, lots, p, id, n);
    RegeneratedKeys(lots, p);
    forall j | 0 <= j < |lots| && lots[j].plotId == p && lots[j].status == "Available"
        && ParseInt(lots[j].lotNumber) == Some(n)
      ensures n in ListAt(t.lists, p)
    {
      NumbersIff(lots, p, n);
      assert IsAvailableIn(lots[j], p) && ParseInt(lots[j].lotNumber) == Some(n);
      assert HasAvailable(lots, p);
      RegeneratedLists(lots, p);
      SortedKeeps(Numbers(lots, p), n);
    }
  }

  lemma NoWronglyListed(lots: seq<Lot>, p: string, id: string, n: int, status: string)
    requires NumberedLots(lots)
    ensures WronglyListed(p, id, n, status) !in Check1(Regenerated(lots), lots).value
  {
    var t := Regenerated(lots);
    WronglyListedIff(t, lots, p, id, n, status);
    if p in t.keys && n in ListAt(t.lists, p) {
      RegeneratedLists(lots, p);
      SortedKeeps(Numbers(lots, p), n);
      NumbersIff(lots, p, n);
      var i :| 0 <= i < |lots| && IsAvailableIn(lots[i], p) && ParseInt(lots[i].lotNumber) == Some(n);
      forall j | 0 <= j < |lots| && lots[j].plotId == p && lots[j].status == status && status != "Available"
        ensures ParseInt(lots[j].lotNumber) != Some(n)
      {
        assert i != j;
      }
    }
  }

  /** After fix_lot_status writes its lots.csv and available_lots.csv,
      validate_data reads both and check 1 reports no mismatch. */
  lemma FixedPassesCheck1(lots: seq<Lot>, occupants: seq<Occupant>)
    requires Analyze(lots, occupants).Ok? && NumberedLots(lots)
    ensures var fixed := Analyze(lots, occupants).value.lots;
      AvailableTable(fixed).Ok?
      && ValidationOf(AvailableTable(fixed).value, fixed, occupants).Ok?
      && ValidationOf(AvailableTable(fixed).value, fixed, occupants).value.mismatches == []
  {
    var fixed := Analyze(lots, occupants).value.lots;
    forall i | 0 <= i < |lots| ensures |fixed| == |lots| && fixed[i].lotNumber == lots[i].lotNumber && fixed[i].plotId == lots[i].plotId {
      ReconciledLot(lots, occupants, i);
    }
    RegeneratedPassesCheck1(fixed);
  }

  /** After fix_lot_status, check 2 can only report lots the fix made Available
      (purchased rights 0) that still have non-Reserved occupants. */
  lemma FixedCheck2(lots: seq<Lot>, occupants: seq<Occupant>, m: StatusMismatch)
    requires Analyze(lots, occupants).Ok?
    requires m in Check2(Analyze(lots, occupants).value.lots, occupants)
    ensures m.status == "Available" && m.occupants > 0
  {
    var fixed := Analyze(lots, occupants).value.lots;
    StatusMismatchIff(fixed, occupants, m);
    var lot := LastLot(fixed, m.lotId).value;
    var i :| 0 <= i < |fixed| && fixed[i] == lot;
    ReconciledLot(lots, occupants, i);
    assert lots[i].lotId == m.lotId;
    DecidedStatusHolds(lots[i].lotId, ParseInt(lots[i].purchasedRights).value,
                       ParseInt(lots[i].remainingRights).value, m.occupants);
  }

  /** The only status fix_lot_status decides that check 2 can contradict is
      Available given to a lot with occupants. */
  lemma DecidedStatusHolds(lotId: string, purchased: int, remaining: int, occupants: nat)
    ensures var status := StatusName(Decide(lotId, purchased, remaining, occupants));
      Contradicts(status, occupants) ==> status == "Available" && occupants > 0
  {
  }

  /** Sorting neither adds nor drops a number. */
  lemma SortedKeeps(ns: seq<int>, n: int)
    ensures n in SortInts(ns) <==> n in ns
  {
    assert n in multiset(SortInts(ns)) <==> n in multiset(ns);
  }
}
