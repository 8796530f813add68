/** scripts/fix_lot_status.py: each lot's status recomputed from its purchased
    and remaining rights and its occupants, and available_lots.csv regenerated
    from the lots whose new status is Available. */
module LotStatus {
  import opened Wrappers
  import opened Text
  import opened Collections
  import opened Records

  /** KEEP_NOT_AVAILABLE: lots pinned to Not Available whatever their rights. */
  const KeepNotAvailable: set<string> := {"OYK1-L1", "UTB25-L1"}

  datatype Status = Available | Unoccupied | PartiallyOccupied | FullyOccupied | Occupied | NotAvailable

  /** The text a status is written as in lots.csv. */
  function StatusName(s: Status): string {
    match s
    case Available => "Available"
    case Unoccupied => "Unoccupied"
    case PartiallyOccupied => "Partially Occupied"
    case FullyOccupied => "Fully Occupied"
    case Occupied => "Occupied"
    case NotAvailable => "Not Available"
  }

  // ---------------------------------------------------------------------------
  // Occupancy
  // ---------------------------------------------------------------------------

  /** occupants_by_lot[lot_id]: the lot's occupants that are not Reserved, in
      file order. */
  function Active(occupants: seq<Occupant>, lotId: string): seq<Occupant>
    decreases |occupants|
  {
    if occupants == [] then []
    else
      var o := occupants[|occupants| - 1];
      Active(occupants[..|occupants| - 1], lotId) + (if o.lotId == lotId && o.status != "Reserved" then [o] else [])
  }

  /** An occupant counts toward a lot exactly when it belongs to the lot and is
      not Reserved. */
  lemma {:induction false} ActiveIff(occupants: seq<Occupant>, lotId: string, o: Occupant)
    ensures o in Active(occupants, lotId) <==> o in occupants && o.lotId == lotId && o.status != "Reserved"
    decreases |occupants|
  {
    if occupants != [] {
      var init := occupants[..|occupants| - 1];
      ActiveIff(init, lotId, o);
      assert occupants == init + [occupants[|occupants| - 1]];
    }
  }

  /** The occupants_by_lot loop: a defaultdict(list) of the non-Reserved rows. */
  method GroupOccupants(occupants: seq<Occupant>) returns (byLot: map<string, seq<Occupant>>)
    ensures forall id :: ListAt(byLot, id) == Active(occupants, id)
  {
    byLot := map[];
    var i := 0;
    while i < |occupants|
      invariant 0 <= i <= |occupants|
      invariant GroupedUpTo(occupants, i, byLot)
    {
      var o := occupants[i];
      var next := if o.status != "Reserved" then byLot[o.lotId := ListAt(byLot, o.lotId) + [o]] else byLot;
      GroupOccupantsStep(occupants, i, byLot, next);
      byLot := next;
      i := i + 1;
    }
    Whole(occupants);
  }

  /** byLot groups the active occupants among the first i rows. */
  ghost predicate GroupedUpTo(occupants: seq<Occupant>, i: nat, byLot: map<string, seq<Occupant>>)
    requires i <= |occupants|
  {
    forall id :: ListAt(byLot, id) == Active(occupants[..i], id)
  }

  lemma GroupOccupantsStep(occupants: seq<Occupant>, i: nat, byLot: map<string, seq<Occupant>>,
                           next: map<string, seq<Occupant>>)
    requires i < |occupants| && GroupedUpTo(occupants, i, byLot)
    requires var o := occupants[i];
      next == if o.status != "Reserved" then byLot[o.lotId := ListAt(byLot, o.lotId) + [o]] else byLot
    ensures GroupedUpTo(occupants, i + 1, next)
  {
    var o := occupants[i];
    PrefixSnoc(occupants, i);
    forall id ensures ListAt(next, id) == Active(occupants[..i + 1], id) {
      assert Active(occupants[..i + 1], id)
        == Active(occupants[..i], id) + (if o.lotId == id && o.status != "Reserved" then [o] else []);
      AppendEmpty(Active(occupants[..i], id));
    }
  }

  // ---------------------------------------------------------------------------
  // The status rule
  // ---------------------------------------------------------------------------

  /** The status a lot should have: the override first, then unpurchased, then
      empty, then space remaining, else full. Occupied is never chosen. */
  function Decide(lotId: string, purchased: int, remaining: int, occupants: nat): (s: Status)
    ensures s == NotAvailable <==> lotId in KeepNotAvailable
    ensures s == Available <==> lotId !in KeepNotAvailable && purchased == 0
    ensures s == Unoccupied <==> lotId !in KeepNotAvailable && purchased != 0 && occupants == 0
    ensures s == PartiallyOccupied <==>
      (lotId !in KeepNotAvailable && purchased != 0 && occupants > 0 && remaining > 0)
    ensures s == FullyOccupied <==>
      (lotId !in KeepNotAvailable && purchased != 0 && occupants > 0 && remaining <= 0)
    ensures s != Occupied
  {
    if lotId in KeepNotAvailable then NotAvailable
    else if purchased == 0 then Available
    else if occupants == 0 then Unoccupied
    else if remaining > 0 then PartiallyOccupied
    else FullyOccupied
  }

  /** A lot's decided status with the values it was decided from. */
  datatype Decision = Decision(status: Status, purchased: int, remaining: int, occupants: nat)

  /** int() of the two rights columns; either one failing aborts the run. */
  function Rights(lot: Lot): Result<(int, int)>
  {
    match ParseInt(lot.purchasedRights)
    case None => Fail("ValueError: invalid literal for int(): " + lot.purchasedRights)
    case Some(p) =>
      match ParseInt(lot.remainingRights)
      case None => Fail("ValueError: invalid literal for int(): " + lot.remainingRights)
      case Some(q) => Ok((p, q))
  }

  predicate Unparsable(lot: Lot) {
    ParseInt(lot.purchasedRights).None? || ParseInt(lot.remainingRights).None?
  }

  /** One pass of the per-lot loop body, before the change is recorded. */
  function DecideLot(lot: Lot, occupants: seq<Occupant>): (r: Result<Decision>)
    ensures r.Fail? <==> Unparsable(lot)
    ensures r.Ok? ==>
      (Some(r.value.purchased) == ParseInt(lot.purchasedRights)
       && Some(r.value.remaining) == ParseInt(lot.remainingRights)
       && r.value.occupants == |Active(occupants, lot.lotId)|
       && r.value.status == Decide(lot.lotId, r.value.purchased, r.value.remaining, r.value.occupants))
  {
    match Rights(lot)
    case Fail(e) => Fail(e)
    case Ok((p, q)) =>
      var n := |Active(occupants, lot.lotId)|;
      Ok(Decision(Decide(lot.lotId, p, q, n), p, q, n))
  }

  /** The decisions for all lots in order, or the first lot's failure. */
  function Decisions(lots: seq<Lot>, occupants: seq<Occupant>): (r: Result<seq<Decision>>)
    ensures r.Ok? ==> |r.value| == |lots|
    decreases |lots|
  {
    if lots == [] then Ok([])
    else
      var init := lots[..|lots| - 1];
      assert forall i :: 0 <= i < |init| ==> init[i] == lots[i];
      match Decisions(init, occupants)
      case Fail(e) => Fail(e)
      case Ok(ds) =>
        match DecideLot(lots[|lots| - 1], occupants)
        case Fail(e) => Fail(e)
        case Ok(d) => Ok(ds + [d])
  }

  /** Each decision is the one its own lot yields. */
  lemma {:induction false} DecisionsAt(lots: seq<Lot>, occupants: seq<Occupant>, i: nat)
    requires Decisions(lots, occupants).Ok? && i < |lots|
    ensures DecideLot(lots[i], occupants) == Ok(Decisions(lots, occupants).value[i])
    decreases |lots|
  {
    var init := lots[..|lots| - 1];
    assert Decisions(init, occupants).Ok? && DecideLot(lots[|lots| - 1], occupants).Ok?;
    var ds := Decisions(init, occupants).value;
    var d := DecideLot(lots[|lots| - 1], occupants).value;
    assert Decisions(lots, occupants) == Ok(ds + [d]);
    if i < |init| {
      DecisionsAt(init, occupants, i);
      assert lots[i] == init[i];
      assert (ds + [d])[i] == ds[i];
    } else {
      assert i == |ds|;
    }
  }

  /** The run fails exactly when some lot's rights are not integers. */
  lemma {:induction false} DecisionsFail(lots: seq<Lot>, occupants: seq<Occupant>)
    ensures Decisions(lots, occupants).Fail? <==> exists i :: 0 <= i < |lots| && Unparsable(lots[i])
    decreases |lots|
  {
    if lots != [] {
      var init := lots[..|lots| - 1];
      var last := lots[|lots| - 1];
      DecisionsFail(init, occupants);
      if Decisions(init, occupants).Fail? {
        var i :| 0 <= i < |init| && Unparsable(init[i]);
        assert lots[i] == init[i];
      } else if !Unparsable(last) {
        forall i | 0 <= i < |lots| ensures !Unparsable(lots[i]) {
          if i < |init| { assert lots[i] == init[i]; } else { assert i == |lots| - 1; }
        }
      }
    }
  }

  /** Once a prefix of the lots fails, the whole run fails the same way. */
  lemma {:induction false} DecisionsFailPrefix(lots: seq<Lot>, occupants: seq<Occupant>, k: nat)
    requires k <= |lots| && Decisions(lots[..k], occupants).Fail?
    ensures Decisions(lots, occupants) == Decisions(lots[..k], occupants)
    decreases |lots| - k
  {
    if k < |lots| {
      var init := lots[..|lots| - 1];
      assert init[..k] == lots[..k];
      DecisionsFailPrefix(init, occupants, k);
    } else {
      assert lots[..k] == lots;
    }
  }

  // ---------------------------------------------------------------------------
  // What a run reports and writes
  // ---------------------------------------------------------------------------

  /** lot['status'] = new_status */
  function Fix(lot: Lot, d: Decision): Lot {
    lot.(status := StatusName(d.status))
  }

  /** The lots with the decided statuses written in. */
  function Reconciled(lots: seq<Lot>, ds: seq<Decision>): (r: seq<Lot>)
    requires |ds| == |lots|
  {
    seq(|lots|, i requires 0 <= i < |lots| => Fix(lots[i], ds[i]))
  }

  /** An entry of `changes`. */
  datatype Change = Change(lotId: string, oldStatus: string, newStatus: Status,
                           purchased: int, remaining: int, occupants: nat)

  function ChangeAt(lots: seq<Lot>, ds: seq<Decision>, i: nat): Change
    requires |ds| == |lots| && i < |lots|
  {
    Change(lots[i].lotId, lots[i].status, ds[i].status, ds[i].purchased, ds[i].remaining, ds[i].occupants)
  }

  predicate Differs(lots: seq<Lot>, ds: seq<Decision>, i: nat)
    requires |ds| == |lots| && i < |lots|
  {
    lots[i].status != StatusName(ds[i].status)
  }

  /** `changes`: one entry per lot whose status text differs, in file order. */
  function ChangesOf(lots: seq<Lot>, ds: seq<Decision>): seq<Change>
    requires |ds| == |lots|
    decreases |lots|
  {
    if lots == [] then []
    else
      var n := |lots| - 1;
      ChangesOf(lots[..n], ds[..n]) + (if Differs(lots, ds, n) then [ChangeAt(lots, ds, n)] else [])
  }

  /** A change is listed exactly for the lots whose status differs. */
  lemma ChangesIff(lots: seq<Lot>, ds: seq<Decision>, c: Change)
    requires |ds| == |lots|
    ensures c in ChangesOf(lots, ds) <==> exists i :: 0 <= i < |lots| && Differs(lots, ds, i) && c == ChangeAt(lots, ds, i)
  {
    if c in ChangesOf(lots, ds) {
      ChangesListed(lots, ds, c);
    }
    if exists i :: 0 <= i < |lots| && Differs(lots, ds, i) && c == ChangeAt(lots, ds, i) {
      var i :| 0 <= i < |lots| && Differs(lots, ds, i) && c == ChangeAt(lots, ds, i);
      ChangesComplete(lots, ds, i);
    }
  }

  lemma {:induction false} ChangesListed(lots: seq<Lot>, ds: seq<Decision>, c: Change)
    requires |ds| == |lots| && c in ChangesOf(lots, ds)
    ensures exists i :: 0 <= i < |lots| && Differs(lots, ds, i) && c == ChangeAt(lots, ds, i)
    decreases |lots|
  {
    var n := |lots| - 1;
    ChangesStep(lots, ds, c);
    if c in ChangesOf(lots[..n], ds[..n]) {
      ChangesListed(lots[..n], ds[..n], c);
      var i :| 0 <= i < n && Differs(lots[..n], ds[..n], i) && c == ChangeAt(lots[..n], ds[..n], i);
      ChangePrefix(lots, ds, n, i);
    } else {
      assert 0 <= n < |lots| && Differs(lots, ds, n) && c == ChangeAt(lots, ds, n);
    }
  }

  lemma {:induction false} ChangesComplete(lots: seq<Lot>, ds: seq<Decision>, i: nat)
    requires |ds| == |lots| && i < |lots| && Differs(lots, ds, i)
    ensures ChangeAt(lots, ds, i) in ChangesOf(lots, ds)
    decreases |lots|
  {
    var n := |lots| - 1;
    if i == n {
      ChangesStep(lots, ds, ChangeAt(lots, ds, i));
    } else {
      ChangePrefix(lots, ds, n, i);
      ChangesComplete(lots[..n], ds[..n], i);
      ChangesStep(lots, ds, ChangeAt(lots, ds, i));
    }
  }

  lemma ChangesStep(lots: seq<Lot>, ds: seq<Decision>, c: Change)
    requires |ds| == |lots| && lots != []
    ensures var n := |lots| - 1;
      c in ChangesOf(lots, ds) <==>
        c in ChangesOf(lots[..n], ds[..n]) || (Differs(lots, ds, n) && c == ChangeAt(lots, ds, n))
  {
    var n := |lots| - 1;
    var tail := if Differs(lots, ds, n) then [ChangeAt(lots, ds, n)] else [];
    assert ChangesOf(lots, ds) == ChangesOf(lots[..n], ds[..n]) + tail;
    InAppend(c, ChangesOf(lots[..n], ds[..n]), tail);
  }

  lemma ChangePrefix(lots: seq<Lot>, ds: seq<Decision>, n: nat, i: nat)
    requires |ds| == |lots| && i < n <= |lots|
    ensures Differs(lots[..n], ds[..n], i) == Differs(lots, ds, i)
    ensures ChangeAt(lots[..n], ds[..n], i) == ChangeAt(lots, ds, i)
  {
    assert lots[..n][i] == lots[i] && ds[..n][i] == ds[i];
  }

  /** status_counts: its six keys are fixed, so it is a record with one field
      per status. */
  datatype StatusCounts = StatusCounts(available: nat, unoccupied: nat, partiallyOccupied: nat,
                                       fullyOccupied: nat, occupied: nat, notAvailable: nat)

  const NoCounts := StatusCounts(0, 0, 0, 0, 0, 0)

  function CountOf(c: StatusCounts, s: Status): nat {
    match s
    case Available => c.available
    case Unoccupied => c.unoccupied
    case PartiallyOccupied => c.partiallyOccupied
    case FullyOccupied => c.fullyOccupied
    case Occupied => c.occupied
    case NotAvailable => c.notAvailable
  }

  function Total(c: StatusCounts): nat {
    c.available + c.unoccupied + c.partiallyOccupied + c.fullyOccupied + c.occupied + c.notAvailable
  }

  /** status_counts[s] += 1: one more in the bucket of s and no other. */
  function Bump(c: StatusCounts, s: Status): (r: StatusCounts)
    ensures CountOf(r, s) == CountOf(c, s) + 1
    ensures forall t :: t != s ==> CountOf(r, t) == CountOf(c, t)
    ensures Total(r) == Total(c) + 1
  {
    match s
    case Available => c.(available := c.available + 1)
    case Unoccupied => c.(unoccupied := c.unoccupied + 1)
    case PartiallyOccupied => c.(partiallyOccupied := c.partiallyOccupied + 1)
    case FullyOccupied => c.(fullyOccupied := c.fullyOccupied + 1)
    case Occupied => c.(occupied := c.occupied + 1)
    case NotAvailable => c.(notAvailable := c.notAvailable + 1)
  }

  /** The counts after the decisions ds. */
  function Counts(ds: seq<Decision>): StatusCounts
    decreases |ds|
  {
    if ds == [] then NoCounts else Bump(Counts(ds[..|ds| - 1]), ds[|ds| - 1].status)
  }

  /** The buckets together hold every decision. */
  lemma {:induction false} CountsTotal(ds: seq<Decision>)
    ensures Total(Counts(ds)) == |ds|
    decreases |ds|
  {
    if ds != [] {
      CountsTotal(ds[..|ds| - 1]);
    }
  }

  /** A bucket no decision chose stays empty. */
  lemma {:induction false} CountsNone(ds: seq<Decision>, s: Status)
    requires forall i :: 0 <= i < |ds| ==> ds[i].status != s
    ensures CountOf(Counts(ds), s) == 0
    decreases |ds|
  {
    if ds != [] {
      var init := ds[..|ds| - 1];
      assert forall i :: 0 <= i < |init| ==> init[i] == ds[i];
      CountsNone(init, s);
    }
  }

  lemma CountsSnoc(ds: seq<Decision>, d: Decision)
    ensures Counts(ds + [d]) == Bump(Counts(ds), d.status)
  {
    assert (ds + [d])[..|ds|] == ds;
  }

  /** What a run computes before it writes anything. */
  datatype Analysis = Analysis(counts: StatusCounts, changes: seq<Change>, lots: seq<Lot>)

  function Analyze(lots: seq<Lot>, occupants: seq<Occupant>): (r: Result<Analysis>)
    ensures r.Fail? <==> exists i :: 0 <= i < |lots| && Unparsable(lots[i])
  {
    DecisionsFail(lots, occupants);
    match Decisions(lots, occupants)
    case Fail(e) => Fail(e)
    case Ok(ds) => Ok(Analysis(Counts(ds), ChangesOf(lots, ds), Reconciled(lots, ds)))
  }

  /** The status_counts values sum to the number of lots and Occupied is 0. */
  lemma CountsSum(lots: seq<Lot>, occupants: seq<Occupant>)
    requires Analyze(lots, occupants).Ok?
    ensures var c := Analyze(lots, occupants).value.counts;
      Total(c) == |lots| && c.occupied == 0
  {
    assert Analyze(lots, occupants).value.counts == Counts(Decisions(lots, occupants).value);
    DecisionCounts(lots, occupants);
  }

  lemma DecisionCounts(lots: seq<Lot>, occupants: seq<Occupant>)
    requires Decisions(lots, occupants).Ok?
    ensures var c := Counts(Decisions(lots, occupants).value);
      Total(c) == |lots| && c.occupied == 0
  {
    var ds := Decisions(lots, occupants).value;
    CountsTotal(ds);
    NeverOccupied(lots, occupants);
    CountsNone(ds, Occupied);
  }

  /** No decision is Occupied. */
  lemma NeverOccupied(lots: seq<Lot>, occupants: seq<Occupant>)
    requires Decisions(lots, occupants).Ok?
    ensures var ds := Decisions(lots, occupants).value;
      forall i :: 0 <= i < |ds| ==> ds[i].status != Occupied
  {
    var ds := Decisions(lots, occupants).value;
    forall i | 0 <= i < |ds| ensures ds[i].status != Occupied {
      DecisionsAt(lots, occupants, i);
    }
  }

  /** Every lot keeps all its columns but status, which becomes the decided
      one; the lot is unchanged exactly when no change is recorded for it. */
  lemma ReconciledLot(lots: seq<Lot>, occupants: seq<Occupant>, i: nat)
    requires Analyze(lots, occupants).Ok? && i < |lots|
    ensures var a := Analyze(lots, occupants).value;
      |a.lots| == |lots|
      && a.lots[i].(status := lots[i].status) == lots[i]
      && a.lots[i].status == StatusName(Decide(lots[i].lotId, ParseInt(lots[i].purchasedRights).value,
           ParseInt(lots[i].remainingRights).value, |Active(occupants, lots[i].lotId)|))
      && (a.lots[i] == lots[i] <==> !exists c :: c in a.changes && c == ChangeAt(lots, Decisions(lots, occupants).value, i))
  {
    var ds := Decisions(lots, occupants).value;
    DecisionsAt(lots, occupants, i);
    var c := ChangeAt(lots, ds, i);
    ChangesIff(lots, ds, c);
    if c in ChangesOf(lots, ds) {
      var j :| 0 <= j < |lots| && Differs(lots, ds, j) && c == ChangeAt(lots, ds, j);
      assert lots[j].status == c.oldStatus && StatusName(ds[j].status) == StatusName(c.newStatus);
    }
  }

  /** A lot ends up Available exactly when it is not pinned and its purchased
      rights are 0. */
  lemma AvailableIffUnpurchased(lots: seq<Lot>, occupants: seq<Occupant>, i: nat)
    requires Analyze(lots, occupants).Ok? && i < |lots|
    ensures var a := Analyze(lots, occupants).value;
      |a.lots| == |lots|
      && (a.lots[i].status == "Available" <==>
          lots[i].lotId !in KeepNotAvailable && ParseInt(lots[i].purchasedRights) == Some(0))
  {
    DecisionsAt(lots, occupants, i);
  }

  /** The decisions read only the lot id and the rights columns, never the
      current status. */
  lemma {:induction false} DecisionsIgnoreStatus(lots: seq<Lot>, other: seq<Lot>, occupants: seq<Occupant>)
    requires |other| == |lots|
    requires forall i :: 0 <= i < |lots| ==> other[i].(status := lots[i].status) == lots[i]
    ensures Decisions(other, occupants) == Decisions(lots, occupants)
    decreases |lots|
  {
    if lots != [] {
      var n := |lots| - 1;
      DecideLotIgnoresStatus(lots[n], other[n], occupants);
      forall i | 0 <= i < n ensures other[..n][i].(status := lots[..n][i].status) == lots[..n][i] {
        assert other[..n][i] == other[i] && lots[..n][i] == lots[i];
      }
      DecisionsIgnoreStatus(lots[..n], other[..n], occupants);
    }
  }

  lemma DecideLotIgnoresStatus(lot: Lot, other: Lot, occupants: seq<Occupant>)
    requires other.(status := lot.status) == lot
    ensures DecideLot(other, occupants) == DecideLot(lot, occupants)
  {
    assert other.lotId == lot.lotId && other.purchasedRights == lot.purchasedRights
      && other.remainingRights == lot.remainingRights;
  }

  lemma {:induction false} NoChanges(lots: seq<Lot>, ds: seq<Decision>)
    requires |ds| == |lots| && forall i :: 0 <= i < |lots| ==> !Differs(lots, ds, i)
    ensures ChangesOf(lots, ds) == []
    decreases |lots|
  {
    if lots != [] {
      var n := |lots| - 1;
      forall i | 0 <= i < n ensures !Differs(lots[..n], ds[..n], i) {
        assert lots[..n][i] == lots[i] && ds[..n][i] == ds[i];
        assert !Differs(lots, ds, i);
      }
      assert !Differs(lots, ds, n);
      NoChanges(lots[..n], ds[..n]);
    }
  }

  /** A second run over the fixed lots decides the same, counts the same,
      records no change and leaves the lots as they are. */
  lemma SecondRun(lots: seq<Lot>, occupants: seq<Occupant>)
    requires Analyze(lots, occupants).Ok?
    ensures var a := Analyze(lots, occupants).value;
      Analyze(a.lots, occupants) == Ok(Analysis(a.counts, [], a.lots))
  {
    var ds := Decisions(lots, occupants).value;
    var fixed := Reconciled(lots, ds);
    DecisionsIgnoreStatus(lots, fixed, occupants);
    NoChanges(fixed, ds);
    assert Reconciled(fixed, ds) == fixed;
  }

  lemma DecisionsSnoc(lots: seq<Lot>, occupants: seq<Occupant>, i: nat, ds: seq<Decision>, d: Decision)
    requires i < |lots| && Decisions(lots[..i], occupants) == Ok(ds) && DecideLot(lots[i], occupants) == Ok(d)
    ensures Decisions(lots[..i + 1], occupants) == Ok(ds + [d])
  {
    PrefixSnoc(lots, i);
  }

  lemma DecisionsStop(lots: seq<Lot>, occupants: seq<Occupant>, i: nat, ds: seq<Decision>)
    requires i < |lots| && Decisions(lots[..i], occupants) == Ok(ds) && Rights(lots[i]).Fail?
    ensures Decisions(lots, occupants) == Fail(Rights(lots[i]).error)
  {
    PrefixSnoc(lots, i);
    assert Decisions(lots[..i + 1], occupants) == Fail(Rights(lots[i]).error);
    DecisionsFailPrefix(lots, occupants, i + 1);
  }

  lemma ChangesSnoc(lots: seq<Lot>, ds: seq<Decision>, d: Decision)
    requires |ds| < |lots|
    ensures var i := |ds|; var l := lots[i];
      ChangesOf(lots[..i + 1], ds + [d]) == ChangesOf(lots[..i], ds)
        + (if l.status != StatusName(d.status)
           then [Change(l.lotId, l.status, d.status, d.purchased, d.remaining, d.occupants)] else [])
  {
    var i := |ds|;
    assert lots[..i + 1][..i] == lots[..i] && (ds + [d])[..i] == ds;
  }

  /** Writing one more decided status into the lots. */
  lemma FixedSnoc(lots: seq<Lot>, ds: seq<Decision>, fixed: seq<Lot>, d: Decision)
    requires |ds| < |lots| == |fixed|
    requires forall k :: 0 <= k < |ds| ==> fixed[k] == Fix(lots[k], ds[k])
    requires forall k :: |ds| <= k < |lots| ==> fixed[k] == lots[k]
    ensures var i := |ds|;
      var f := if lots[i].status != StatusName(d.status) then fixed[i := Fix(lots[i], d)] else fixed;
      |f| == |lots| && (forall k :: 0 <= k < i + 1 ==> f[k] == Fix(lots[k], (ds + [d])[k]))
      && (forall k :: i + 1 <= k < |lots| ==> f[k] == lots[k])
  {
    var i := |ds|;
    assert lots[i].status == StatusName(d.status) ==> Fix(lots[i], d) == lots[i];
  }

  /** The per-lot loop: decide, count, record a change and rewrite the status
      only when it differs. */
  method Reconcile(lots: seq<Lot>, occupants: seq<Occupant>, byLot: map<string, seq<Occupant>>)
    returns (r: Result<Analysis>)
    requires forall id :: ListAt(byLot, id) == Active(occupants, id)
    ensures r == Analyze(lots, occupants)
  {
    var counts := NoCounts;
    var changes: seq<Change> := [];
    var fixed := lots;
    ghost var ds: seq<Decision> := [];
    assert counts == Counts(ds);
    var i := 0;
    while i < |lots|
      invariant 0 <= i <= |lots| && |ds| == i && |fixed| == |lots|
      invariant Decisions(lots[..i], occupants) == Ok(ds)
      invariant counts == Counts(ds)
      invariant changes == ChangesOf(lots[..i], ds)
      invariant forall k :: 0 <= k < i ==> fixed[k] == Fix(lots[k], ds[k])
      invariant forall k :: i <= k < |lots| ==> fixed[k] == lots[k]
    {
      var lot := lots[i];
      var rights := Rights(lot);
      if rights.Fail? {
        DecisionsStop(lots, occupants, i, ds);
        return Fail(rights.error);
      }
      var (purchased, remaining) := rights.value;
      var n := |ListAt(byLot, lot.lotId)|;
      var d := Decision(Decide(lot.lotId, purchased, remaining, n), purchased, remaining, n);
      assert DecideLot(lot, occupants) == Ok(d);
      CountsSnoc(ds, d);
      counts := Bump(counts, d.status);
      var newStatus := StatusName(d.status);
      DecisionsSnoc(lots, occupants, i, ds, d);
      ChangesSnoc(lots, ds, d);
      FixedSnoc(lots, ds, fixed, d);
      if lot.status != newStatus {
        changes := changes + [Change(lot.lotId, lot.status, d.status, purchased, remaining, n)];
        fixed := fixed[i := Fix(lot, d)];
      }
      ds := ds + [d];
      i := i + 1;
    }
    assert lots[..i] == lots;
    assert fixed == Reconciled(lots, ds);
    return Ok(Analysis(counts, changes, fixed));
  }

  // ---------------------------------------------------------------------------
  // available_lots.csv
  // ---------------------------------------------------------------------------

  /** A row of available_lots.csv after its header. */
  datatype AvailableRow = AvailableRow(plotId: string, lotsAvailable: string)

  predicate IsAvailableIn(lot: Lot, plotId: string) {
    lot.status == "Available" && lot.plotId == plotId
  }

  /** The lot numbers of the Available lots of a plot, in file order. */
  function Numbers(lots: seq<Lot>, plotId: string): seq<int>
    decreases |lots|
  {
    if lots == [] then []
    else
      var lot := lots[|lots| - 1];
      Numbers(lots[..|lots| - 1], plotId)
        + (if IsAvailableIn(lot, plotId) && ParseInt(lot.lotNumber).Some? then [ParseInt(lot.lotNumber).value] else [])
  }

  /** A number is listed for a plot exactly when an Available lot of that plot
      carries it. */
  lemma {:induction false} NumbersIff(lots: seq<Lot>, plotId: string, n: int)
    ensures n in Numbers(lots, plotId) <==>
      exists i :: 0 <= i < |lots| && IsAvailableIn(lots[i], plotId) && ParseInt(lots[i].lotNumber) == Some(n)
    decreases |lots|
  {
    if lots != [] {
      var init := lots[..|lots| - 1];
      var last := lots[|lots| - 1];
      NumbersIff(init, plotId, n);
      if n in Numbers(init, plotId) {
        var i :| 0 <= i < |init| && IsAvailableIn(init[i], plotId) && ParseInt(init[i].lotNumber) == Some(n);
        assert lots[i] == init[i];
      } else if !(IsAvailableIn(last, plotId) && ParseInt(last.lotNumber) == Some(n)) {
        forall i | 0 <= i < |lots| && IsAvailableIn(lots[i], plotId) ensures ParseInt(lots[i].lotNumber) != Some(n) {
          if i < |init| { assert lots[i] == init[i]; } else { assert i == |lots| - 1; }
        }
      }
    }
  }

  predicate HasAvailable(lots: seq<Lot>, plotId: string) {
    exists i :: 0 <= i < |lots| && IsAvailableIn(lots[i], plotId)
  }

  predicate Listed(rows: seq<AvailableRow>, plotId: string) {
    exists i :: 0 <= i < |rows| && rows[i].plotId == plotId
  }

  predicate BadNumber(lot: Lot) {
    lot.status == "Available" && ParseInt(lot.lotNumber).None?
  }

  /** available_by_plot: its keys in insertion order and its lists. */
  datatype Grouping = Grouping(keys: seq<string>, nums: map<string, seq<int>>)

  /** The available_by_plot loop, or the failure of int(lot_number) on the
      first Available lot whose number is not an integer. */
  function Group(lots: seq<Lot>): (r: Result<Grouping>)
    ensures r.Ok? ==> Distinct(r.value.keys) && forall k :: k in r.value.keys <==> k in r.value.nums
    decreases |lots|
  {
    if lots == [] then Ok(Grouping([], map[]))
    else
      var lot := lots[|lots| - 1];
      var init := lots[..|lots| - 1];
      assert forall i :: 0 <= i < |init| ==> init[i] == lots[i];
      match Group(init)
      case Fail(e) => Fail(e)
      case Ok(g) =>
        if lot.status != "Available" then Ok(g)
        else
          match ParseInt(lot.lotNumber)
          case None => Fail("ValueError: invalid literal for int(): " + lot.lotNumber)
          case Some(n) =>
            var keys := if lot.plotId in g.nums then g.keys else g.keys + [lot.plotId];
            Ok(Grouping(keys, g.nums[lot.plotId := ListAt(g.nums, lot.plotId) + [n]]))
  }

  /** Grouping fails exactly on an Available lot whose number is not an integer. */
  lemma {:induction false} GroupFail(lots: seq<Lot>)
    ensures Group(lots).Fail? <==> exists i :: 0 <= i < |lots| && BadNumber(lots[i])
    decreases |lots|
  {
    if lots != [] {
      var init := lots[..|lots| - 1];
      var last := lots[|lots| - 1];
      GroupFail(init);
      if Group(init).Fail? {
        var i :| 0 <= i < |init| && BadNumber(init[i]);
        assert lots[i] == init[i];
      } else if !BadNumber(last) {
        assert Group(lots).Ok?;
        forall i | 0 <= i < |lots| ensures !BadNumber(lots[i]) {
          if i < |init| { assert lots[i] == init[i]; } else { assert i == |lots| - 1; }
        }
      }
    }
  }

  lemma {:induction false} GroupFailPrefix(lots: seq<Lot>, k: nat)
    requires k <= |lots| && Group(lots[..k]).Fail?
    ensures Group(lots) == Group(lots[..k])
    decreases |lots| - k
  {
    if k < |lots| {
      var init := lots[..|lots| - 1];
      assert init[..k] == lots[..k];
      GroupFailPrefix(init, k);
    } else {
      assert lots[..k] == lots;
    }
  }

  /** Each plot's list holds the numbers of its Available lots, and a plot is a
      key exactly when it has one. */
  lemma {:induction false} GroupContents(lots: seq<Lot>, plotId: string)
    requires Group(lots).Ok?
    ensures ListAt(Group(lots).value.nums, plotId) == Numbers(lots, plotId)
    ensures plotId in Group(lots).value.nums <==> HasAvailable(lots, plotId)
    decreases |lots|
  {
    if lots != [] {
      var init := lots[..|lots| - 1];
      var lot := lots[|lots| - 1];
      assert forall i :: 0 <= i < |init| ==> init[i] == lots[i];
      GroupContents(init, plotId);
      if lot.status == "Available" {
        assert !BadNumber(lot);
      }
    }
  }

  /** ','.join(str(n) for n in ns) */
  function JoinInts(ns: seq<int>): string {
    Join(",", seq(|ns|, i requires 0 <= i < |ns| => IntToString(ns[i])))
  }

  function RowOf(g: Grouping, plotId: string): AvailableRow
    requires plotId in g.nums
  {
    AvailableRow(plotId, JoinInts(SortInts(g.nums[plotId])))
  }

  /** The rows in sorted plot order. */
  function RowsOf(g: Grouping): seq<AvailableRow>
    requires forall k :: k in g.keys ==> k in g.nums
  {
    var sk := SortStrings(g.keys);
    assert forall i :: 0 <= i < |sk| ==> sk[i] in multiset(g.keys);
    seq(|sk|, i requires 0 <= i < |sk| => RowOf(g, sk[i]))
  }

  /** The rows of the regenerated available_lots.csv, or int()'s failure. */
  function AvailableTable(lots: seq<Lot>): Result<seq<AvailableRow>>
  {
    match Group(lots)
    case Fail(e) => Fail(e)
    case Ok(g) => Ok(RowsOf(g))
  }

  /** The table fails exactly on an Available lot whose number is not an
      integer; otherwise its plots ascend, it lists exactly the plots with an
      Available lot, and each row holds that plot's numbers sorted and joined. */
  lemma TableContents(lots: seq<Lot>)
    ensures AvailableTable(lots).Fail? <==> exists i :: 0 <= i < |lots| && BadNumber(lots[i])
    ensures AvailableTable(lots).Ok? ==> var rows := AvailableTable(lots).value;
      (forall i :: 0 <= i < |rows| - 1 ==> StrLe(rows[i].plotId, rows[i + 1].plotId))
      && (forall i :: 0 <= i < |rows| ==> rows[i].lotsAvailable == JoinInts(SortInts(Numbers(lots, rows[i].plotId))))
      && (forall p :: Listed(rows, p) <==> HasAvailable(lots, p))
  {
    GroupFail(lots);
    if Group(lots).Ok? {
      var g := Group(lots).value;
      RowsOfAt(g);
      TableSorted(g);
      TableRows(lots, g);
      TableListed(lots, g);
    }
  }

  lemma TableSorted(g: Grouping)
    requires forall k :: k in g.keys ==> k in g.nums
    ensures var rows := RowsOf(g);
      forall i :: 0 <= i < |rows| - 1 ==> StrLe(rows[i].plotId, rows[i + 1].plotId)
  {
    RowsOfAt(g);
  }

  lemma TableRows(lots: seq<Lot>, g: Grouping)
    requires Group(lots) == Ok(g)
    ensures var rows := RowsOf(g);
      forall i :: 0 <= i < |rows| ==> rows[i].lotsAvailable == JoinInts(SortInts(Numbers(lots, rows[i].plotId)))
  {
    var sk := SortStrings(g.keys);
    var rows := RowsOf(g);
    RowsOfAt(g);
    forall i | 0 <= i < |rows| ensures rows[i].lotsAvailable == JoinInts(SortInts(Numbers(lots, rows[i].plotId))) {
      GroupContents(lots, sk[i]);
    }
  }

  lemma TableListed(lots: seq<Lot>, g: Grouping)
    requires Group(lots) == Ok(g)
    ensures forall p :: Listed(RowsOf(g), p) <==> HasAvailable(lots, p)
  {
    forall p ensures Listed(RowsOf(g), p) <==> HasAvailable(lots, p) {
      GroupContents(lots, p);
      ListedIff(g, p);
    }
  }

  /** A plot has a row exactly when it is a key of the grouping. */
  lemma ListedIff(g: Grouping, p: string)
    requires forall k :: k in g.keys <==> k in g.nums
    ensures Listed(RowsOf(g), p) <==> p in g.nums
  {
    var sk := SortStrings(g.keys);
    var rows := RowsOf(g);
    RowsOfAt(g);
    if p in g.nums {
      assert p in multiset(sk);
      var i :| 0 <= i < |sk| && sk[i] == p;
      assert rows[i].plotId == p;
    }
  }

  lemma GroupSnoc(lots: seq<Lot>, i: nat, g: Grouping)
    requires i < |lots| && Group(lots[..i]) == Ok(g)
    ensures var lot := lots[i];
      Group(lots[..i + 1]) ==
        if lot.status != "Available" then Ok(g)
        else if ParseInt(lot.lotNumber).None? then Fail("ValueError: invalid literal for int(): " + lot.lotNumber)
        else Ok(Grouping(if lot.plotId in g.nums then g.keys else g.keys + [lot.plotId],
                         g.nums[lot.plotId := ListAt(g.nums, lot.plotId) + [ParseInt(lot.lotNumber).value]]))
  {
    PrefixSnoc(lots, i);
  }

  /** The available_by_plot loop. */
  method GroupAvailable(lots: seq<Lot>) returns (r: Result<Grouping>)
    ensures r == Group(lots)
  {
    var keys: seq<string> := [];
    var nums: map<string, seq<int>> := map[];
    var i := 0;
    while i < |lots|
      invariant 0 <= i <= |lots|
      invariant Group(lots[..i]) == Ok(Grouping(keys, nums))
    {
      var lot := lots[i];
      GroupSnoc(lots, i, Grouping(keys, nums));
      if lot.status == "Available" {
        var n := ParseInt(lot.lotNumber);
        if n.None? {
          GroupFailPrefix(lots, i + 1);
          return Fail("ValueError: invalid literal for int(): " + lot.lotNumber);
        }
        if lot.plotId !in nums {
          keys := keys + [lot.plotId];
        }
        nums := nums[lot.plotId := ListAt(nums, lot.plotId) + [n.value]];
      }
      i := i + 1;
    }
    Whole(lots);
    return Ok(Grouping(keys, nums));
  }

  /** The writing loop: one row per plot in sorted order. */
  method WriteRows(g: Grouping) returns (rows: seq<AvailableRow>)
    requires forall k :: k in g.keys ==> k in g.nums
    ensures rows == RowsOf(g)
  {
    var sorted := SortStrings(g.keys);
    RowsOfAt(g);
    rows := RowsFor(g, sorted);
    SameElements(rows, RowsOf(g));
  }

  lemma RowsOfAt(g: Grouping)
    requires forall k :: k in g.keys ==> k in g.nums
    ensures var sorted := SortStrings(g.keys);
      |RowsOf(g)| == |sorted| && forall i :: 0 <= i < |sorted| ==> sorted[i] in g.nums && RowsOf(g)[i] == RowOf(g, sorted[i])
  {
    var sorted := SortStrings(g.keys);
    forall i | 0 <= i < |sorted| ensures sorted[i] in g.nums {
      assert sorted[i] in multiset(sorted);
    }
  }

  method RowsFor(g: Grouping, plotIds: seq<string>) returns (rows: seq<AvailableRow>)
    requires forall i :: 0 <= i < |plotIds| ==> plotIds[i] in g.nums
    ensures |rows| == |plotIds| && forall k :: 0 <= k < |plotIds| ==> rows[k] == RowOf(g, plotIds[k])
  {
    rows := [];
    for j := 0 to |plotIds|
      invariant |rows| == j
      invariant forall k :: 0 <= k < j ==> rows[k] == RowOf(g, plotIds[k])
    {
      rows := rows + [RowOf(g, plotIds[j])];
    }
  }

  /** Regenerating available_lots.csv from the fixed lots. */
  method RegenerateAvailable(lots: seq<Lot>) returns (r: Result<seq<AvailableRow>>)
    ensures r == AvailableTable(lots)
  {
    var grouped := GroupAvailable(lots);
    if grouped.Fail? {
      return Fail(grouped.error);
    }
    var rows := WriteRows(grouped.value);
    return Ok(rows);
  }

  /** fix_lot_status(dry_run): the analysis, then, unless it is a dry run,
      lots.csv and available_lots.csv. A dry run writes neither file and
      returns False; a failing int() writes nothing after it. */
  method FixLotStatus(lots: seq<Lot>, occupants: seq<Occupant>, dryRun: bool)
    returns (analysis: Result<Analysis>, lotsFile: Option<seq<Lot>>,
             availableFile: Option<seq<AvailableRow>>, success: bool)
    ensures analysis == Analyze(lots, occupants)
    ensures lotsFile == if !dryRun && analysis.Ok? then Some(analysis.value.lots) else None
    ensures availableFile ==
      if !dryRun && analysis.Ok? && AvailableTable(analysis.value.lots).Ok?
      then Some(AvailableTable(analysis.value.lots).value) else None
    ensures success <==> availableFile.Some?
  {
    var byLot := GroupOccupants(occupants);
    analysis := Reconcile(lots, occupants, byLot);
    lotsFile, availableFile, success := None, None, false;
    if analysis.Fail? || dryRun {
      return;
    }
    lotsFile := Some(analysis.value.lots);
    var table := RegenerateAvailable(analysis.value.lots);
    if table.Ok? {
      availableFile, success := Some(table.value), true;
    }
  }
}
