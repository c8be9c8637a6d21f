/** Concrete cases of the rules: activation texts, date boundaries, a two-row table, a missing column. */
module Scenarios {
  import opened Wrappers
  import opened Text
  import opened Rules
  import opened Engine
  import opened Frames

  /** "Overdue" with a first number of at least 30 is flagged. */
  lemma OverdueFortyFiveFlagged()
    ensures OverdueActivation(Some("Overdue 45 days"))
  {
    FirstNumberDecides(" ", ['4', '5'], " days");
    TwoDigits('4', '5');
    assert "Overdue" + " " + ['4', '5'] + " days" == "Overdue 45 days";
  }

  /** A number under 30 is not enough. */
  lemma OverdueFiveNotFlagged()
    ensures !OverdueActivation(Some("Overdue 5 days"))
  {
    FirstNumberDecides(" ", ['5'], " days");
    OneDigit('5');
    assert "Overdue" + " " + ['5'] + " days" == "Overdue 5 days";
  }

  /** "Overdue" without any digit reads as 0 days and is not flagged. */
  lemma OverdueWithoutNumberNotFlagged()
    ensures !OverdueActivation(Some("Overdue"))
  {
    assert forall k :: 0 <= k < |"Overdue"| ==> !IsDigit("Overdue"[k]);
  }

  /** "On Track 45" is not flagged: it does not mention "Overdue", though its number is over 30. */
  lemma OnTrackNotFlagged()
    ensures !OverdueActivation(Some("On Track 45"))
  {
    assert 'v' in "Overdue" && 'v' !in "On Track 45";
    MissingCharNotContained("On Track 45", "Overdue", 'v');
  }

  /** Only the first number counts: a later number of 30 or more does not flag the row. */
  lemma OnlyFirstNumberCounts()
    ensures !OverdueActivation(Some("Overdue 5 of 40"))
  {
    FirstNumberDecides(" ", ['5'], " of 40");
    OneDigit('5');
    assert "Overdue" + " " + ['5'] + " of 40" == "Overdue 5 of 40";
  }

  /** Rule 2 is a strict comparison of two present dates. */
  lemma PsvComparisons(row: Row, now: Timestamp, psv: Timestamp, sel: Timestamp)
    requires row.psvComplete == Some(psv) && row.selected == Some(sel)
    ensures Violates(PsvAfterSelected, row, now) <==> psv > sel
    ensures !Violates(PsvAfterSelected, row.(selected := None), now)
    ensures !Violates(PsvAfterSelected, row.(psvComplete := None), now)
  {
  }

  /** Rule 5 boundary: exactly 365 days before `now` is flagged, one nanosecond later is not. */
  lemma SelectedBoundary(row: Row, now: Timestamp)
    requires row.status == Some("Selected")
    ensures row.statusEffective == Some(now - 365 * NanosPerDay) ==> Violates(SelectedStale, row, now)
    ensures row.statusEffective == Some(now - 400 * NanosPerDay) ==> Violates(SelectedStale, row, now)
    ensures row.statusEffective == Some(now - 365 * NanosPerDay + 1) ==> !Violates(SelectedStale, row, now)
    ensures row.statusEffective == Some(now - 300 * NanosPerDay) ==> !Violates(SelectedStale, row, now)
  {
  }

  /** Rule 6 boundary: exactly 90 days before `now` is flagged, one nanosecond later is not. */
  lemma SivReadyBoundary(row: Row, now: Timestamp)
    requires row.status == Some("SIV Ready")
    ensures row.statusEffective == Some(now - 90 * NanosPerDay) ==> Violates(SivReadyStale, row, now)
    ensures row.statusEffective == Some(now - 90 * NanosPerDay + 1) ==> !Violates(SivReadyStale, row, now)
  {
  }

  lemma OverdueFortyFlagged()
    ensures OverdueActivation(Some("Overdue 40 days"))
  {
    FirstNumberDecides(" ", ['4', '0'], " days");
    TwoDigits('4', '0');
    assert "Overdue" + " " + ['4', '0'] + " days" == "Overdue 40 days";
  }

  /** On a two-row table a rule lists the first row's identifier, then the second's, as each is flagged. */
  lemma FlaggedTwoRows(rule: Rule, a: Row, b: Row, now: Timestamp)
    ensures Flagged(rule, [a, b], now)
         == (if Violates(rule, a, now) then [a.site] else []) + (if Violates(rule, b, now) then [b.site] else [])
  {
    assert Sites([a, b]) == [a.site, b.site];
    assert Mask(rule, [a, b], now) == [Violates(rule, a, now), Violates(rule, b, now)];
    SelectTwo(a.site, b.site, Violates(rule, a, now), Violates(rule, b, now));
  }

  /** Site 100: 40 days overdue, no other data. */
  function OverdueSite(): Row {
    Row(Some("100"), Some("Overdue 40 days"), None, None, None, None, None, None, None, None)
  }

  /** Site 200: "SIV Ready" for 100 days, no other data. */
  function SivReadySite(now: Timestamp): Row {
    Row(Some("200"), None, None, None, None, None, None, None, Some("SIV Ready"), Some(now - 100 * NanosPerDay))
  }

  lemma OverdueSiteFlags(rule: Rule, now: Timestamp)
    ensures Violates(rule, OverdueSite(), now) <==> rule == ActivationOverdue
  {
    if rule == ActivationOverdue {
      OverdueFortyFlagged();
    }
  }

  lemma SivReadySiteFlags(rule: Rule, now: Timestamp)
    ensures Violates(rule, SivReadySite(now), now) <==> rule == SivReadyStale
  {
    if rule == SelectedStale {
      assert "SIV Ready"[1] != "Selected"[1];
    }
  }

  lemma TwoSiteFlagged(rule: Rule, now: Timestamp)
    ensures Flagged(rule, [OverdueSite(), SivReadySite(now)], now)
         == (if rule == ActivationOverdue then [Some("100")] else []) + (if rule == SivReadyStale then [Some("200")] else [])
  {
    OverdueSiteFlags(rule, now);
    SivReadySiteFlags(rule, now);
    FlaggedTwoRows(rule, OverdueSite(), SivReadySite(now), now);
  }

  /**
   * The two-row table of sites 100 and 200: only rules 1 and 6 list
   * anything, each the one site it flags.
   */
  lemma TwoSiteTable(now: Timestamp)
    ensures ProcessRows([OverdueSite(), SivReadySite(now)], now)
         == Report([Some("100")], [], [], [], [], ["200"])
  {
    TwoSiteFlagged(ActivationOverdue, now);
    TwoSiteFlagged(PsvAfterSelected, now);
    TwoSiteFlagged(PlannedSubmissionAfterApproval, now);
    TwoSiteFlagged(ActualSubmissionAfterApproval, now);
    TwoSiteFlagged(SelectedStale, now);
    TwoSiteFlagged(SivReadyStale, now);
    assert DropMissing([Some("200")]) == ["200"] by {
      assert [Some("200")][..0] == [];
    }
  }

  /** A table without "SITE STATUS" yields no report at all, not one missing only rules 5 and 6. */
  lemma MissingStatusAborts(table: Table, now: Timestamp, parse: Parser)
    requires "SITE STATUS" !in table.columns
    ensures ProcessFile(table, now, parse).Failure?
  {
    assert ColumnsInReadOrder[9] == "SITE STATUS";
  }
}
