/** scripts/missing_dates_report.py: the occupants of occupants.csv that lack a
    birth date, a death date or both, in three lists. Reserved occupants are
    skipped. The report text and the file it is written to are not modelled. */
module MissingDates {
  import opened Wrappers
  import opened Text
  import opened Collections
  import opened Records

  /** The list an occupant is reported in. */
  datatype Gap = MissingBoth | MissingDob | MissingDod

  /** An entry of a list: the lot, the name, and the one date that is known
      (the death date in missing_dob, the birth date in missing_dod, "" in
      missing_both). */
  datatype Entry = Entry(lotId: string, name: string, knownDate: string)

  /** The status of an occupant that does not count. */
  const ReservedStatus: string := "Reserved"

  predicate IsReserved(o: Occupant) { Strip(o.status) == ReservedStatus }

  /** The loop body's decision for one occupant: None when it is skipped or
      has both dates. The dates are compared after stripping. */
  function GapOf(o: Occupant): Option<Gap>
  {
    var birth := Strip(o.birthDate);
    var death := Strip(o.deathDate);
    if IsReserved(o) then None
    else if birth == [] && death == [] then Some(MissingBoth)
    else if birth == [] then Some(MissingDob)
    else if death == [] then Some(MissingDod)
    else None
  }

  /** An occupant is reported missing both dates, the birth date only or the
      death date only exactly as its stripped dates are blank, and skipped when
      Reserved or when it has both. */
  lemma GapOfMeaning(o: Occupant)
    ensures GapOf(o) == Some(MissingBoth) <==> !IsReserved(o) && Strip(o.birthDate) == [] && Strip(o.deathDate) == []
    ensures GapOf(o) == Some(MissingDob) <==> !IsReserved(o) && Strip(o.birthDate) == [] && Strip(o.deathDate) != []
    ensures GapOf(o) == Some(MissingDod) <==> !IsReserved(o) && Strip(o.birthDate) != [] && Strip(o.deathDate) == []
    ensures GapOf(o).None? <==> IsReserved(o) || (Strip(o.birthDate) != [] && Strip(o.deathDate) != [])
  {
  }

  /** The dict appended for an occupant to the list of its gap. */
  function EntryOf(o: Occupant, g: Gap): Entry {
    match g
    case MissingBoth => Entry(o.lotId, o.name, "")
    case MissingDob => Entry(o.lotId, o.name, Strip(o.deathDate))
    case MissingDod => Entry(o.lotId, o.name, Strip(o.birthDate))
  }

  /** The decision for every occupant, in file order. */
  function Kinds(occupants: seq<Occupant>): (ks: seq<Option<Gap>>)
    ensures |ks| == |occupants|
  {
    seq(|occupants|, i requires 0 <= i < |occupants| => GapOf(occupants[i]))
  }

  /** The positions of the decisions equal to Some(g): strictly increasing. */
  function Positions(ks: seq<Option<Gap>>, g: Gap): (r: seq<nat>)
    ensures forall k :: 0 <= k < |r| ==> r[k] < |ks| && ks[r[k]] == Some(g)
    ensures forall k, l :: 0 <= k < l < |r| ==> r[k] < r[l]
    decreases |ks|
  {
    if ks == [] then []
    else
      var n := |ks| - 1;
      var r := Positions(ks[..n], g);
      assert forall k :: 0 <= k < |r| ==> ks[..n][r[k]] == ks[r[k]];
      r + (if ks[n] == Some(g) then [n] else [])
  }

  /** Every position holding Some(g) is listed. */
  lemma {:induction false} PositionsComplete(ks: seq<Option<Gap>>, g: Gap, i: nat)
    requires i < |ks| && ks[i] == Some(g)
    ensures i in Positions(ks, g)
    decreases |ks|
  {
    var n := |ks| - 1;
    if i < n {
      assert ks[..n][i] == ks[i];
      PositionsComplete(ks[..n], g, i);
    }
  }

  /** The positions, in occupants.csv, of the occupants reported under one
      gap: increasing, so each list keeps the file's order. */
  function Gaps(occupants: seq<Occupant>, g: Gap): (r: seq<nat>)
    ensures forall k :: 0 <= k < |r| ==> r[k] < |occupants|
    ensures forall k, l :: 0 <= k < l < |r| ==> r[k] < r[l]
  {
    Positions(Kinds(occupants), g)
  }

  /** The entries of the occupants at the given positions. */
  function EntriesAt(occupants: seq<Occupant>, p: seq<nat>, g: Gap): (r: seq<Entry>)
    requires forall k :: 0 <= k < |p| ==> p[k] < |occupants|
    ensures |r| == |p|
  {
    seq(|p|, k requires 0 <= k < |p| => EntryOf(occupants[p[k]], g))
  }

  /** The list of one gap: the entries of the occupants at its positions. */
  function Report(occupants: seq<Occupant>, g: Gap): (r: seq<Entry>)
    ensures |r| == |Gaps(occupants, g)|
  {
    EntriesAt(occupants, Gaps(occupants, g), g)
  }

  /** Positions below i pick the same entries from the first i + 1 occupants as
      from the first i, and position i picks the entry of occupant i. */
  lemma EntriesAtStep(occupants: seq<Occupant>, p: seq<nat>, g: Gap, i: nat)
    requires i < |occupants| && forall k :: 0 <= k < |p| ==> p[k] < i
    ensures EntriesAt(occupants[..i + 1], p, g) == EntriesAt(occupants[..i], p, g)
    ensures EntriesAt(occupants[..i + 1], p + [i], g) == EntriesAt(occupants[..i], p, g) + [EntryOf(occupants[i], g)]
  {
    var r := EntriesAt(occupants[..i], p, g);
    var r1 := EntriesAt(occupants[..i + 1], p, g);
    var r2 := EntriesAt(occupants[..i + 1], p + [i], g);
    forall k | 0 <= k < |p| ensures r1[k] == r[k] && r2[k] == r[k] {
      assert occupants[..i + 1][p[k]] == occupants[..i][p[k]];
      assert (p + [i])[k] == p[k];
    }
    assert r2[|p|] == EntryOf(occupants[i], g);
    SameElements(r1, r);
    SameElements(r2, r + [EntryOf(occupants[i], g)]);
  }

  /** One more occupant adds its position when its gap is g. */
  lemma GapsStep(occupants: seq<Occupant>, g: Gap, i: nat)
    requires i < |occupants|
    ensures Gaps(occupants[..i + 1], g)
      == Gaps(occupants[..i], g) + (if GapOf(occupants[i]) == Some(g) then [i] else [])
  {
    var ks := Kinds(occupants[..i + 1]);
    assert ks[..i] == Kinds(occupants[..i]);
    assert ks[i] == GapOf(occupants[i]);
  }

  /** An occupant is in a list exactly when its gap is that list's. */
  lemma GapsIff(occupants: seq<Occupant>, g: Gap, i: nat)
    ensures i in Gaps(occupants, g) <==> i < |occupants| && GapOf(occupants[i]) == Some(g)
  {
    if i < |occupants| && GapOf(occupants[i]) == Some(g) {
      PositionsComplete(Kinds(occupants), g, i);
    }
  }

  /** No occupant is in two lists, and a Reserved occupant or one with both
      dates is in none. */
  lemma ListsDisjoint(occupants: seq<Occupant>, i: nat)
    requires i < |occupants|
    ensures i in Gaps(occupants, MissingBoth) ==> i !in Gaps(occupants, MissingDob) && i !in Gaps(occupants, MissingDod)
    ensures i in Gaps(occupants, MissingDob) ==> i !in Gaps(occupants, MissingDod)
    ensures IsReserved(occupants[i]) || (Strip(occupants[i].birthDate) != [] && Strip(occupants[i].deathDate) != [])
      ==> i !in Gaps(occupants, MissingBoth) && i !in Gaps(occupants, MissingDob) && i !in Gaps(occupants, MissingDod)
  {
    GapsIff(occupants, MissingBoth, i);
    GapsIff(occupants, MissingDob, i);
    GapsIff(occupants, MissingDod, i);
  }

  /** The number of decisions that are not None. */
  function Decided(ks: seq<Option<Gap>>): nat
    decreases |ks|
  {
    if ks == [] then 0 else Decided(ks[..|ks| - 1]) + (if ks[|ks| - 1].Some? then 1 else 0)
  }

  lemma {:induction false} PositionsTotal(ks: seq<Option<Gap>>)
    ensures |Positions(ks, MissingBoth)| + |Positions(ks, MissingDob)| + |Positions(ks, MissingDod)| == Decided(ks)
    decreases |ks|
  {
    if ks != [] {
      var n := |ks| - 1;
      PositionsTotal(ks[..n]);
      assert Positions(ks, MissingBoth) == Positions(ks[..n], MissingBoth) + (if ks[n] == Some(MissingBoth) then [n] else []);
      assert Positions(ks, MissingDob) == Positions(ks[..n], MissingDob) + (if ks[n] == Some(MissingDob) then [n] else []);
      assert Positions(ks, MissingDod) == Positions(ks[..n], MissingDod) + (if ks[n] == Some(MissingDod) then [n] else []);
      assert Decided(ks) == Decided(ks[..n]) + (if ks[n].Some? then 1 else 0);
      match ks[n] {
        case None =>
        case Some(x) => assert x == MissingBoth || x == MissingDob || x == MissingDod;
      }
    }
  }

  /** The number of true flags. */
  function CountTrue(bs: seq<bool>): nat
    decreases |bs|
  {
    if bs == [] then 0 else CountTrue(bs[..|bs| - 1]) + (if bs[|bs| - 1] then 1 else 0)
  }

  /** Whether each occupant counts as a person: it is not Reserved. */
  function LiveFlags(occupants: seq<Occupant>): (bs: seq<bool>)
    ensures |bs| == |occupants|
  {
    seq(|occupants|, i requires 0 <= i < |occupants| => !IsReserved(occupants[i]))
  }

  /** The number of occupants that are not Reserved. */
  function Live(occupants: seq<Occupant>): nat {
    CountTrue(LiveFlags(occupants))
  }

  lemma ReservedUndecided(o: Occupant)
    ensures IsReserved(o) ==> GapOf(o).None?
  {
  }

  /** Decisions made only where a flag is set are at most the flags set. */
  lemma {:induction false} DecidedAtMost(ks: seq<Option<Gap>>, bs: seq<bool>)
    requires |ks| == |bs| && forall i :: 0 <= i < |ks| && ks[i].Some? ==> bs[i]
    ensures Decided(ks) <= CountTrue(bs)
    decreases |ks|
  {
    if ks != [] {
      var n := |ks| - 1;
      DecidedAtMost(ks[..n], bs[..n]);
    }
  }

  /** The "Total with missing date info" line counts every non-Reserved
      occupant lacking a date once, and so is at most the number of
      non-Reserved occupants. */
  lemma TotalMissing(occupants: seq<Occupant>)
    ensures |Report(occupants, MissingBoth)| + |Report(occupants, MissingDob)| + |Report(occupants, MissingDod)|
      == Decided(Kinds(occupants))
    ensures Decided(Kinds(occupants)) <= Live(occupants)
  {
    var ks := Kinds(occupants);
    var bs := LiveFlags(occupants);
    PositionsTotal(ks);
    forall i | 0 <= i < |ks| && ks[i].Some? ensures bs[i] {
      ReservedUndecided(occupants[i]);
    }
    DecidedAtMost(ks, bs);
  }

  lemma ReportStep(occupants: seq<Occupant>, g: Gap, i: nat)
    requires i < |occupants|
    ensures Report(occupants[..i + 1], g)
      == Report(occupants[..i], g) + (if GapOf(occupants[i]) == Some(g) then [EntryOf(occupants[i], g)] else [])
  {
    var p := Gaps(occupants[..i], g);
    GapsStep(occupants, g, i);
    EntriesAtStep(occupants, p, g, i);
    if GapOf(occupants[i]) == Some(g) {
      assert Report(occupants[..i + 1], g) == EntriesAt(occupants[..i + 1], p + [i], g);
    } else {
      assert Report(occupants[..i + 1], g) == EntriesAt(occupants[..i + 1], p, g);
    }
  }

  /** The classification loop of check_missing_dates. */
  method CheckMissingDates(occupants: seq<Occupant>)
    returns (missingBoth: seq<Entry>, missingDob: seq<Entry>, missingDod: seq<Entry>)
    ensures missingBoth == Report(occupants, MissingBoth)
    ensures missingDob == Report(occupants, MissingDob)
    ensures missingDod == Report(occupants, MissingDod)
  {
    missingBoth, missingDob, missingDod := [], [], [];
    for i := 0 to |occupants|
      invariant missingBoth == Report(occupants[..i], MissingBoth)
      invariant missingDob == Report(occupants[..i], MissingDob)
      invariant missingDod == Report(occupants[..i], MissingDod)
    {
      ReportStep(occupants, MissingBoth, i);
      ReportStep(occupants, MissingDob, i);
      ReportStep(occupants, MissingDod, i);
      var occ := occupants[i];
      var status := Strip(occ.status);
      var birthDate := Strip(occ.birthDate);
      var deathDate := Strip(occ.deathDate);
      if status == ReservedStatus {
        continue;
      }
      if birthDate == [] && deathDate == [] {
        missingBoth := missingBoth + [Entry(occ.lotId, occ.name, "")];
      } else if birthDate == [] {
        missingDob := missingDob + [Entry(occ.lotId, occ.name, deathDate)];
      } else if deathDate == [] {
        missingDod := missingDod + [Entry(occ.lotId, occ.name, birthDate)];
      }
    }
    Whole(occupants);
  }
}
