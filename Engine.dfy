/**
 * The report `process_file` returns: six named lists of site identifiers,
 * one per rule, built from the same rows and the same reference time.
 */
module Engine {
  import opened Wrappers
  import opened Rules

  /** The six lists of the returned dictionary, named after the program's own variables. */
  datatype Report = Report(
    activationOverdueSites: seq<Option<SiteNumber>>,
    psvAfterSelectedSites: seq<SiteNumber>,
    plannedSubmissionAfterApprovalSites: seq<SiteNumber>,
    actualSubmissionAfterApprovalSites: seq<SiteNumber>,
    selectedStatusSites: seq<SiteNumber>,
    sivReadySites: seq<SiteNumber>)

  /**
   * All six rules over parsed rows. Rule 1 keeps absent identifiers; rules
   * 2 to 6 drop them.
   */
  function ProcessRows(rows: seq<Row>, now: Timestamp): (r: Report)
    ensures |r.activationOverdueSites| <= |rows| && |r.psvAfterSelectedSites| <= |rows|
    ensures |r.plannedSubmissionAfterApprovalSites| <= |rows| && |r.actualSubmissionAfterApprovalSites| <= |rows|
    ensures |r.selectedStatusSites| <= |rows| && |r.sivReadySites| <= |rows|
  {
    Report(
      Flagged(ActivationOverdue, rows, now),
      DropMissing(Flagged(PsvAfterSelected, rows, now)),
      DropMissing(Flagged(PlannedSubmissionAfterApproval, rows, now)),
      DropMissing(Flagged(ActualSubmissionAfterApproval, rows, now)),
      DropMissing(Flagged(SelectedStale, rows, now)),
      DropMissing(Flagged(SivReadyStale, rows, now)))
  }

  /** The dictionary key of each rule, verbatim. */
  function Name(rule: Rule): string {
    match rule
    case ActivationOverdue => "Activation is over 30 days overdue"
    case PsvAfterSelected => "PSV Date is after Selected Date"
    case PlannedSubmissionAfterApproval => "Planned Submission Date is after Planned Approval Date"
    case ActualSubmissionAfterApproval => "Actual Submission Date is after Actual Approval Date"
    case SelectedStale => "Site has been in a Selected Status for over 365 days"
    case SivReadyStale => "Site has been in a SIV Ready Status for over 90 days"
  }

  /** The list a report holds for `rule`, as the dictionary value (identifiers that may be absent). */
  function Listing(report: Report, rule: Rule): seq<Option<SiteNumber>> {
    match rule
    case ActivationOverdue => report.activationOverdueSites
    case PsvAfterSelected => Lift(report.psvAfterSelectedSites)
    case PlannedSubmissionAfterApproval => Lift(report.plannedSubmissionAfterApprovalSites)
    case ActualSubmissionAfterApproval => Lift(report.actualSubmissionAfterApprovalSites)
    case SelectedStale => Lift(report.selectedStatusSites)
    case SivReadyStale => Lift(report.sivReadySites)
  }

  /** Distinct rules have distinct names, so no dictionary entry overwrites another. */
  lemma NamesDistinct(a: Rule, b: Rule)
    ensures Name(a) == Name(b) ==> a == b
  {
    if a != b {
      match a
      case ActivationOverdue => assert Name(ActivationOverdue) != Name(b);
      case PsvAfterSelected => assert Name(PsvAfterSelected) != Name(b);
      case PlannedSubmissionAfterApproval => assert Name(PlannedSubmissionAfterApproval) != Name(b);
      case ActualSubmissionAfterApproval => assert Name(ActualSubmissionAfterApproval) != Name(b);
      case SelectedStale => assert Name(SelectedStale) != Name(b);
      case SivReadyStale => assert Name(SivReadyStale) != Name(b);
    }
  }

  /** The returned dictionary: exactly the six rule names, each mapped to that rule's list. */
  function AsDict(report: Report): (d: map<string, seq<Option<SiteNumber>>>)
    ensures forall rule :: Name(rule) in d && d[Name(rule)] == Listing(report, rule)
    ensures forall k :: k in d ==> exists rule :: Name(rule) == k
  {
    forall a, b ensures Name(a) == Name(b) ==> a == b { NamesDistinct(a, b); }
    map[Name(ActivationOverdue) := Listing(report, ActivationOverdue),
        Name(PsvAfterSelected) := Listing(report, PsvAfterSelected),
        Name(PlannedSubmissionAfterApproval) := Listing(report, PlannedSubmissionAfterApproval),
        Name(ActualSubmissionAfterApproval) := Listing(report, ActualSubmissionAfterApproval),
        Name(SelectedStale) := Listing(report, SelectedStale),
        Name(SivReadyStale) := Listing(report, SivReadyStale)]
  }

  /** Whether a row adds an entry to the list of `rule`: it is flagged and, except under rule 1, identified. */
  predicate Contributes(rule: Rule, row: Row, now: Timestamp) {
    Violates(rule, row, now) && (rule == ActivationOverdue || row.site.Some?)
  }

  /** Per row, whether it adds an entry to the list of `rule`. */
  function ContributionMask(rule: Rule, rows: seq<Row>, now: Timestamp): (m: seq<bool>)
    ensures |m| == |rows| && forall i :: 0 <= i < |rows| ==> m[i] == Contributes(rule, rows[i], now)
  {
    var mask := Mask(rule, rows, now);
    if rule == ActivationOverdue then mask else PresentAnd(Sites(rows), mask)
  }

  /** The positions of the rows that contribute to the list of `rule`, ascending. */
  function ReportedRows(rule: Rule, rows: seq<Row>, now: Timestamp): (idx: seq<nat>)
    ensures forall k :: 0 <= k < |idx| ==> idx[k] < |rows| && Contributes(rule, rows[idx[k]], now)
    ensures forall k, l :: 0 <= k < l < |idx| ==> idx[k] < idx[l]
    ensures forall i :: 0 <= i < |rows| && Contributes(rule, rows[i], now) ==> i in idx
  {
    TrueAt(ContributionMask(rule, rows, now))
  }

  /** Each list is the `SITE NUMBER` column selected by the contribution mask. */
  lemma ListingSelects(rule: Rule, rows: seq<Row>, now: Timestamp)
    ensures Listing(ProcessRows(rows, now), rule) == Select(Sites(rows), ContributionMask(rule, rows, now))
  {
    if rule != ActivationOverdue {
      DropMissingSelect(Sites(rows), Mask(rule, rows, now));
    }
  }

  /**
   * Each list of the report is the identifiers of exactly the contributing
   * rows, once each, in row order: not sorted, not deduplicated.
   */
  lemma ReportFollowsRows(rule: Rule, rows: seq<Row>, now: Timestamp)
    ensures var idx := ReportedRows(rule, rows, now);
      var l := Listing(ProcessRows(rows, now), rule);
      |l| == |idx| && forall k :: 0 <= k < |idx| ==> l[k] == rows[idx[k]].site
  {
    ListingSelects(rule, rows, now);
    SelectFollowsMask(Sites(rows), ContributionMask(rule, rows, now));
  }

  /**
   * An identifier is listed under `rule` iff some row carrying it violates
   * the rule; outside rule 1 an absent identifier is never listed.
   */
  lemma ReportedIff(rule: Rule, rows: seq<Row>, now: Timestamp, x: Option<SiteNumber>)
    ensures x in Listing(ProcessRows(rows, now), rule)
      <==> (rule == ActivationOverdue || x.Some?) &&
           exists i :: 0 <= i < |rows| && rows[i].site == x && Violates(rule, rows[i], now)
  {
    ReportFollowsRows(rule, rows, now);
    var idx := ReportedRows(rule, rows, now);
    var l := Listing(ProcessRows(rows, now), rule);
    if x in l {
      var k :| 0 <= k < |l| && l[k] == x;
      assert rows[idx[k]].site == x;
    }
    if (rule == ActivationOverdue || x.Some?) && exists i :: 0 <= i < |rows| && rows[i].site == x && Violates(rule, rows[i], now) {
      var i :| 0 <= i < |rows| && rows[i].site == x && Violates(rule, rows[i], now);
      assert Contributes(rule, rows[i], now);
      var k :| 0 <= k < |idx| && idx[k] == i;
      assert l[k] == x;
    }
  }

  /** Two rows carrying the same identifier that both contribute give two entries, in their row order. */
  lemma DuplicatesKept(rule: Rule, rows: seq<Row>, now: Timestamp, i: nat, j: nat)
    requires i < j < |rows| && rows[i].site == rows[j].site
    requires Contributes(rule, rows[i], now) && Contributes(rule, rows[j], now)
    ensures var l := Listing(ProcessRows(rows, now), rule);
      exists p, q :: 0 <= p < q < |l| && l[p] == rows[i].site && l[q] == rows[j].site
  {
    ReportFollowsRows(rule, rows, now);
    var idx := ReportedRows(rule, rows, now);
    var l := Listing(ProcessRows(rows, now), rule);
    var p :| 0 <= p < |idx| && idx[p] == i;
    var q :| 0 <= q < |idx| && idx[q] == j;
    assert p < q && l[p] == rows[i].site && l[q] == rows[j].site;
  }
}
