/**
 * The six site-tracking rules of `process_file`, each a boolean mask over
 * the rows of the table followed by a projection onto `SITE NUMBER`.
 * Rows are seen here with every date column already parsed; module Frames
 * models the column-by-column parsing the program does in place.
 */
module Rules {
  import opened Wrappers
  import opened Text

  /** A site identifier; numeric identifiers are carried as their text. */
  type SiteNumber = string

  /** An instant, in nanoseconds (the resolution of a parsed pandas date column). */
  type Timestamp = int

  const NanosPerDay: int := 86_400_000_000_000

  /** Rule 1 flags an activation at least this many days overdue. */
  const OverdueDays: nat := 30
  /** Rule 5: longest time a site may stay in status "Selected". */
  const SelectedStaleDays: nat := 365
  /** Rule 6: longest time a site may stay in status "SIV Ready". */
  const SivReadyStaleDays: nat := 90

  /**
   * One row of the table. A `None` date is NaT (missing or not parseable);
   * a `None` text is NaN or a non-text cell.
   */
  datatype Row = Row(
    site: Option<SiteNumber>,               // SITE NUMBER
    activation: Option<string>,             // ACTIVATION COMPLETE
    psvComplete: Option<Timestamp>,         // PSV COMPLETE
    selected: Option<Timestamp>,            // SELECTED
    firstSubmissionPlanned: Option<Timestamp>,  // FIRST SUBMISSION PLANNED
    allApprovalsPlanned: Option<Timestamp>,     // ALL APPROVALS PLANNED
    firstSubmissionComplete: Option<Timestamp>, // FIRST SUBMISSION COMPLETE
    allApprovalsComplete: Option<Timestamp>,    // ALL APPROVALS COMPLETE
    status: Option<string>,                 // SITE STATUS
    statusEffective: Option<Timestamp>)     // SITE STATUS EFFECTIVE DATE

  datatype Rule =
    | ActivationOverdue               // 1. Activation is over 30 days overdue
    | PsvAfterSelected                // 2. PSV Date is after Selected Date
    | PlannedSubmissionAfterApproval  // 3. Planned Submission Date is after Planned Approval Date
    | ActualSubmissionAfterApproval   // 4. Actual Submission Date is after Actual Approval Date
    | SelectedStale                   // 5. Selected Status for over 365 days
    | SivReadyStale                   // 6. SIV Ready Status for over 90 days

  /**
   * Rule 1 on one cell: the text mentions "Overdue" and its first digit run
   * (0 when it has none) is at least 30. A cell that is not text never matches.
   */
  predicate OverdueActivation(a: Option<string>)
    ensures OverdueActivation(a) ==>
      a.Some? && FirstDigitRun(a.value).Some? && FirstDigitRun(a.value).value >= OverdueDays
  {
    a.Some? && Contains(a.value, "Overdue") && ExtractedNumber(a.value) >= OverdueDays
  }

  /**
   * For a text "Overdue", then digit-free text, then a maximal digit run:
   * rule 1 flags it exactly when that first run reads as 30 or more.
   */
  lemma FirstNumberDecides(gap: string, d: string, rest: string)
    requires forall k :: 0 <= k < |gap| ==> !IsDigit(gap[k])
    requires d != [] && AllDigits(d)
    requires rest == [] || !IsDigit(rest[0])
    ensures OverdueActivation(Some("Overdue" + gap + d + rest)) <==> DecimalValue(d) >= OverdueDays
  {
    var p := "Overdue" + gap;
    assert forall k :: 0 <= k < |p| ==> !IsDigit(p[k]) by {
      forall k | 0 <= k < |p| ensures !IsDigit(p[k]) {
        if k < 7 { assert p[k] == "Overdue"[k]; } else { assert p[k] == gap[k - 7]; }
      }
    }
    FirstDigitRunAfter(p, d, rest);
    assert "Overdue" + gap + d + rest == "Overdue" + (gap + d + rest);
    ContainsPrefix("Overdue", gap + d + rest);
  }

  /** Text that does not mention "Overdue" is never flagged by rule 1, whatever numbers it holds. */
  lemma NoOverdueNotFlagged(t: string)
    requires !Contains(t, "Overdue")
    ensures !OverdueActivation(Some(t))
  {
  }

  /** `a > b` on two parsed date cells; a comparison with NaT is false. */
  predicate Later(a: Option<Timestamp>, b: Option<Timestamp>)
    ensures Later(a, b) ==> a.Some? && b.Some? && a.value != b.value
  {
    a.Some? && b.Some? && a.value > b.value
  }

  /** `d <= now - timedelta(days=days)`; a comparison with NaT is false. */
  predicate StaleFor(d: Option<Timestamp>, now: Timestamp, days: nat)
    ensures StaleFor(d, now, days) ==> d.Some? && d.value <= now
  {
    d.Some? && d.value <= now - days * NanosPerDay
  }

  /** The mask of `rule` at one row, evaluated against the reference time `now`. */
  predicate Violates(rule: Rule, row: Row, now: Timestamp)
    ensures Violates(rule, row, now) ==> ReadsPresent(rule, row)
  {
    match rule
    case ActivationOverdue => OverdueActivation(row.activation)
    case PsvAfterSelected => Later(row.psvComplete, row.selected)
    case PlannedSubmissionAfterApproval => Later(row.firstSubmissionPlanned, row.allApprovalsPlanned)
    case ActualSubmissionAfterApproval => Later(row.firstSubmissionComplete, row.allApprovalsComplete)
    case SelectedStale => row.status == Some("Selected") && StaleFor(row.statusEffective, now, SelectedStaleDays)
    case SivReadyStale => row.status == Some("SIV Ready") && StaleFor(row.statusEffective, now, SivReadyStaleDays)
  }

  /** Every cell the mask of `rule` reads is present: not NaN, not NaT. */
  predicate ReadsPresent(rule: Rule, row: Row) {
    && (rule == ActivationOverdue ==> row.activation.Some?)
    && (rule == SelectedStale || rule == SivReadyStale ==> row.status.Some?)
    && forall col :: col in DatesRead(rule) ==> DateOf(row, col).Some?
  }

  /** The `SITE NUMBER` column. */
  function Sites(rows: seq<Row>): seq<Option<SiteNumber>> {
    seq(|rows|, i requires 0 <= i < |rows| => rows[i].site)
  }

  /** The boolean Series the rule computes, one entry per row. */
  function Mask(rule: Rule, rows: seq<Row>, now: Timestamp): seq<bool> {
    seq(|rows|, i requires 0 <= i < |rows| => Violates(rule, rows[i], now))
  }

  /** `xs.loc[mask]`: the entries whose mask entry is true, in their order. */
  function Select<T>(xs: seq<T>, mask: seq<bool>): (r: seq<T>)
    requires |mask| == |xs|
    ensures |r| <= |xs|
  {
    if xs == [] then []
    else
      var n := |xs| - 1;
      Select(xs[..n], mask[..n]) + (if mask[n] then [xs[n]] else [])
  }

  /** The positions where `mask` is true, ascending. */
  function TrueAt(mask: seq<bool>): (idx: seq<nat>)
    ensures forall k :: 0 <= k < |idx| ==> idx[k] < |mask| && mask[idx[k]]
    ensures forall k, l :: 0 <= k < l < |idx| ==> idx[k] < idx[l]
    ensures forall i :: 0 <= i < |mask| && mask[i] ==> i in idx
  {
    if mask == [] then []
    else
      var n := |mask| - 1;
      var init := mask[..n];
      assert forall i :: 0 <= i < n ==> init[i] == mask[i];
      TrueAt(init) + (if mask[n] then [n] else [])
  }

  /** Selecting by a mask lists the entry at every true position once, in order, and nothing else. */
  lemma {:induction false} SelectFollowsMask<T>(xs: seq<T>, mask: seq<bool>)
    requires |mask| == |xs|
    ensures var idx := TrueAt(mask);
      |Select(xs, mask)| == |idx| && forall k :: 0 <= k < |idx| ==> Select(xs, mask)[k] == xs[idx[k]]
  {
    if xs != [] {
      var n := |xs| - 1;
      SelectFollowsMask(xs[..n], mask[..n]);
      var idx0, idx := TrueAt(mask[..n]), TrueAt(mask);
      var l0, l := Select(xs[..n], mask[..n]), Select(xs, mask);
      assert idx == idx0 + (if mask[n] then [n] else []);
      assert l == l0 + (if mask[n] then [xs[n]] else []);
      forall k | 0 <= k < |idx| ensures l[k] == xs[idx[k]] {
        if k < |idx0| {
          assert l[k] == l0[k] && idx[k] == idx0[k];
          assert xs[..n][idx0[k]] == xs[idx0[k]];
        }
      }
    }
  }

  /** Selecting from two entries keeps the first, then the second, as each is marked. */
  lemma SelectTwo<T>(x: T, y: T, m: bool, n: bool)
    ensures Select([x, y], [m, n]) == (if m then [x] else []) + (if n then [y] else [])
  {
    assert [x, y][..1] == [x] && [m, n][..1] == [m];
    assert [x][..0] == [] && [m][..0] == [];
  }

  /** `df.loc[mask, 'SITE NUMBER'].tolist()`: the identifiers of the flagged rows, absent ones included. */
  function Flagged(rule: Rule, rows: seq<Row>, now: Timestamp): (r: seq<Option<SiteNumber>>)
    ensures |r| <= |rows|
    ensures forall k :: 0 <= k < |r| ==>
      exists i :: 0 <= i < |rows| && rows[i].site == r[k] && Violates(rule, rows[i], now)
  {
    var sites, mask := Sites(rows), Mask(rule, rows, now);
    SelectFollowsMask(sites, mask);
    var idx := TrueAt(mask);
    assert forall k :: 0 <= k < |idx| ==> rows[idx[k]].site == sites[idx[k]] && mask[idx[k]];
    Select(sites, mask)
  }

  /** `.dropna()`: the present identifiers, in their order. */
  function DropMissing(xs: seq<Option<SiteNumber>>): (r: seq<SiteNumber>)
    ensures |r| <= |xs|
  {
    if xs == [] then []
    else
      var n := |xs| - 1;
      DropMissing(xs[..n]) + (if xs[n].Some? then [xs[n].value] else [])
  }

  /** `.dropna()` keeps every present identifier as often as it occurs, and nothing else. */
  lemma {:induction false} DropMissingCounts(xs: seq<Option<SiteNumber>>)
    ensures forall x :: multiset(DropMissing(xs))[x] == multiset(xs)[Some(x)]
  {
    if xs != [] {
      var n := |xs| - 1;
      assert xs == xs[..n] + [xs[n]];
      DropMissingCounts(xs[..n]);
    }
  }

  /** Dropping missing entries keeps the relative order: it distributes over concatenation. */
  lemma {:induction false} DropMissingAppend(xs: seq<Option<SiteNumber>>, ys: seq<Option<SiteNumber>>)
    ensures DropMissing(xs + ys) == DropMissing(xs) + DropMissing(ys)
    decreases |ys|
  {
    if ys != [] {
      var n := |ys| - 1;
      assert (xs + ys)[..|xs + ys| - 1] == xs + ys[..n];
      DropMissingAppend(xs, ys[..n]);
    } else {
      assert xs + ys == xs;
    }
  }

  function Lift(xs: seq<SiteNumber>): seq<Option<SiteNumber>> {
    seq(|xs|, k requires 0 <= k < |xs| => Some(xs[k]))
  }

  lemma LiftAppend(a: seq<SiteNumber>, b: seq<SiteNumber>)
    ensures Lift(a + b) == Lift(a) + Lift(b)
  {
    var l, r := Lift(a + b), Lift(a) + Lift(b);
    assert |l| == |r|;
    forall k | 0 <= k < |l| ensures l[k] == r[k] {
      if k < |a| { assert r[k] == Lift(a)[k]; } else { assert r[k] == Lift(b)[k - |a|]; }
    }
  }

  /** `mask` narrowed to the entries whose identifier is present. */
  function PresentAnd(xs: seq<Option<SiteNumber>>, mask: seq<bool>): seq<bool>
    requires |mask| == |xs|
  {
    seq(|xs|, i requires 0 <= i < |xs| => mask[i] && xs[i].Some?)
  }

  /** Selecting and then dropping missing identifiers is selecting the present ones. */
  lemma {:induction false} DropMissingSelect(xs: seq<Option<SiteNumber>>, mask: seq<bool>)
    requires |mask| == |xs|
    ensures Lift(DropMissing(Select(xs, mask))) == Select(xs, PresentAnd(xs, mask))
  {
    if xs != [] {
      var n := |xs| - 1;
      var xs0, m0 := xs[..n], mask[..n];
      DropMissingSelect(xs0, m0);
      var tail := if mask[n] then [xs[n]] else [];
      var kept := if mask[n] && xs[n].Some? then [xs[n]] else [];
      assert Select(xs, mask) == Select(xs0, m0) + tail;
      DropMissingAppend(Select(xs0, m0), tail);
      DropMissingOne(tail);
      LiftAppend(DropMissing(Select(xs0, m0)), DropMissing(tail));
      var present := PresentAnd(xs, mask);
      assert present[..n] == PresentAnd(xs0, m0);
      assert Select(xs, present) == Select(xs0, PresentAnd(xs0, m0)) + kept;
    }
  }

  /** At most one entry: `.dropna()` keeps it exactly when it is present. */
  lemma DropMissingOne(xs: seq<Option<SiteNumber>>)
    requires |xs| <= 1
    ensures Lift(DropMissing(xs)) == if xs != [] && xs[0].Some? then xs else []
  {
    if xs != [] {
      assert xs[..0] == [];
    }
  }

  /** The seven date columns the program converts with `pd.to_datetime`. */
  datatype DateColumn =
    | PsvComplete | Selected
    | FirstSubmissionPlanned | AllApprovalsPlanned
    | FirstSubmissionComplete | AllApprovalsComplete
    | StatusEffectiveDate

  function DateOf(row: Row, col: DateColumn): Option<Timestamp> {
    match col
    case PsvComplete => row.psvComplete
    case Selected => row.selected
    case FirstSubmissionPlanned => row.firstSubmissionPlanned
    case AllApprovalsPlanned => row.allApprovalsPlanned
    case FirstSubmissionComplete => row.firstSubmissionComplete
    case AllApprovalsComplete => row.allApprovalsComplete
    case StatusEffectiveDate => row.statusEffective
  }

  /** The date columns the mask of `rule` compares. */
  function DatesRead(rule: Rule): set<DateColumn> {
    match rule
    case ActivationOverdue => {}
    case PsvAfterSelected => {PsvComplete, Selected}
    case PlannedSubmissionAfterApproval => {FirstSubmissionPlanned, AllApprovalsPlanned}
    case ActualSubmissionAfterApproval => {FirstSubmissionComplete, AllApprovalsComplete}
    case SelectedStale => {StatusEffectiveDate}
    case SivReadyStale => {StatusEffectiveDate}
  }

  /** Two rows agree on everything `rule` reads: the identifier, its text or status column, its dates. */
  predicate SameInputs(rule: Rule, x: Row, y: Row) {
    && x.site == y.site
    && (rule == ActivationOverdue ==> x.activation == y.activation)
    && (rule == SelectedStale || rule == SivReadyStale ==> x.status == y.status)
    && forall col :: col in DatesRead(rule) ==> DateOf(x, col) == DateOf(y, col)
  }

  /** A rule's mask depends on nothing but the columns it reads. */
  lemma ViolatesReadsOnlyItsColumns(rule: Rule, x: Row, y: Row, now: Timestamp)
    requires SameInputs(rule, x, y)
    ensures Violates(rule, x, now) == Violates(rule, y, now)
  {
    match rule
    case ActivationOverdue =>
    case PsvAfterSelected =>
      assert DateOf(x, PsvComplete) == DateOf(y, PsvComplete);
      assert DateOf(x, Selected) == DateOf(y, Selected);
    case PlannedSubmissionAfterApproval =>
      assert DateOf(x, FirstSubmissionPlanned) == DateOf(y, FirstSubmissionPlanned);
      assert DateOf(x, AllApprovalsPlanned) == DateOf(y, AllApprovalsPlanned);
    case ActualSubmissionAfterApproval =>
      assert DateOf(x, FirstSubmissionComplete) == DateOf(y, FirstSubmissionComplete);
      assert DateOf(x, AllApprovalsComplete) == DateOf(y, AllApprovalsComplete);
    case SelectedStale =>
      assert DateOf(x, StatusEffectiveDate) == DateOf(y, StatusEffectiveDate);
    case SivReadyStale =>
      assert DateOf(x, StatusEffectiveDate) == DateOf(y, StatusEffectiveDate);
  }

  /** Two tables that agree, row by row, on what `rule` reads give the same identifier list. */
  lemma FlaggedReadsOnlyItsColumns(rule: Rule, a: seq<Row>, b: seq<Row>, now: Timestamp)
    requires |a| == |b|
    requires forall i :: 0 <= i < |a| ==> SameInputs(rule, a[i], b[i])
    ensures Flagged(rule, a, now) == Flagged(rule, b, now)
  {
    forall i | 0 <= i < |a| ensures Violates(rule, a[i], now) == Violates(rule, b[i], now) {
      ViolatesReadsOnlyItsColumns(rule, a[i], b[i], now);
    }
    assert Sites(a) == Sites(b);
    assert Mask(rule, a, now) == Mask(rule, b, now);
  }

  /** Rules 5 and 6 never flag the same row: the two status literals differ. */
  lemma StaleRulesExclusive(row: Row, now: Timestamp)
    ensures !(Violates(SelectedStale, row, now) && Violates(SivReadyStale, row, now))
  {
    assert "Selected" != "SIV Ready" by {
      assert "Selected"[1] != "SIV Ready"[1];
    }
  }
}
