/**
 * `process_file` as written: the loaded table is a frame whose date columns
 * start out raw and are overwritten, one pair at a time, with their parsed
 * form just before the rule that compares them. A column the frame lacks
 * stops the whole evaluation with a KeyError before any report exists.
 */
module Frames {
  import opened Wrappers
  import opened Rules
  import opened Engine

  /** A cell as the loader delivers it. */
  datatype Value = Blank | Text(text: string) | Number(n: int) | Moment(t: Timestamp)

  /** A date-column cell: still as loaded, or overwritten with its parsed form. */
  datatype Cell = Raw(v: Value) | Converted(t: Option<Timestamp>)

  /**
   * `pd.to_datetime(..., errors='coerce')` on one loaded value: a timestamp,
   * or None (NaT) when the value cannot be read as a date. Its format
   * handling belongs to pandas and is a parameter of the model.
   */
  type Parser = Value -> Option<Timestamp>

  /** One row of the frame. Identifier, activation text and status are never rewritten. */
  datatype FrameRow = FrameRow(
    site: Option<SiteNumber>,
    activation: Option<string>,
    psvComplete: Cell,
    selected: Cell,
    firstSubmissionPlanned: Cell,
    allApprovalsPlanned: Cell,
    firstSubmissionComplete: Cell,
    allApprovalsComplete: Cell,
    status: Option<string>,
    statusEffective: Cell)

  /** The parsed form of a cell; converting an already converted cell keeps its date. */
  function Coerce(parse: Parser, c: Cell): Option<Timestamp> {
    match c
    case Raw(v) => parse(v)
    case Converted(t) => t
  }

  function CellOf(r: FrameRow, col: DateColumn): Cell {
    match col
    case PsvComplete => r.psvComplete
    case Selected => r.selected
    case FirstSubmissionPlanned => r.firstSubmissionPlanned
    case AllApprovalsPlanned => r.allApprovalsPlanned
    case FirstSubmissionComplete => r.firstSubmissionComplete
    case AllApprovalsComplete => r.allApprovalsComplete
    case StatusEffectiveDate => r.statusEffective
  }

  /** The row with the cell of `col` replaced by its parsed form and every other cell kept. */
  function ConvertCell(r: FrameRow, col: DateColumn, parse: Parser): (r': FrameRow)
    ensures CellOf(r', col) == Converted(Coerce(parse, CellOf(r, col)))
    ensures forall other :: other != col ==> CellOf(r', other) == CellOf(r, other)
    ensures r'.site == r.site && r'.activation == r.activation && r'.status == r.status
  {
    var c := Converted(Coerce(parse, CellOf(r, col)));
    match col
    case PsvComplete => r.(psvComplete := c)
    case Selected => r.(selected := c)
    case FirstSubmissionPlanned => r.(firstSubmissionPlanned := c)
    case AllApprovalsPlanned => r.(allApprovalsPlanned := c)
    case FirstSubmissionComplete => r.(firstSubmissionComplete := c)
    case AllApprovalsComplete => r.(allApprovalsComplete := c)
    case StatusEffectiveDate => r.(statusEffective := c)
  }

  /** `df[col] = pd.to_datetime(df[col], errors='coerce')`. */
  function ConvertColumn(rows: seq<FrameRow>, col: DateColumn, parse: Parser): (r: seq<FrameRow>)
    ensures |r| == |rows|
    ensures forall i :: 0 <= i < |rows| ==> CellOf(r[i], col) == Converted(Coerce(parse, CellOf(rows[i], col)))
    ensures forall i, other :: 0 <= i < |rows| && other != col ==> CellOf(r[i], other) == CellOf(rows[i], other)
    ensures forall i :: 0 <= i < |rows| ==>
      r[i].site == rows[i].site && r[i].activation == rows[i].activation && r[i].status == rows[i].status
  {
    seq(|rows|, i requires 0 <= i < |rows| => ConvertCell(rows[i], col, parse))
  }

  /** Converting a column a second time changes nothing. */
  lemma ConvertColumnIdempotent(rows: seq<FrameRow>, col: DateColumn, parse: Parser)
    ensures ConvertColumn(ConvertColumn(rows, col, parse), col, parse) == ConvertColumn(rows, col, parse)
  {
    var once := ConvertColumn(rows, col, parse);
    var twice := ConvertColumn(once, col, parse);
    forall i | 0 <= i < |rows| ensures twice[i] == once[i] {
      var r, r1, r2 := rows[i], once[i], twice[i];
      assert CellOf(r2, col) == CellOf(r1, col);
      forall other ensures CellOf(r2, other) == CellOf(r1, other) {
      }
      CellsDetermineRow(r1, r2);
    }
  }

  /** Two rows with the same identifier, text, status and cells are the same row. */
  lemma CellsDetermineRow(a: FrameRow, b: FrameRow)
    requires a.site == b.site && a.activation == b.activation && a.status == b.status
    requires forall col :: CellOf(a, col) == CellOf(b, col)
    ensures a == b
  {
    assert CellOf(a, PsvComplete) == CellOf(b, PsvComplete);
    assert CellOf(a, Selected) == CellOf(b, Selected);
    assert CellOf(a, FirstSubmissionPlanned) == CellOf(b, FirstSubmissionPlanned);
    assert CellOf(a, AllApprovalsPlanned) == CellOf(b, AllApprovalsPlanned);
    assert CellOf(a, FirstSubmissionComplete) == CellOf(b, FirstSubmissionComplete);
    assert CellOf(a, AllApprovalsComplete) == CellOf(b, AllApprovalsComplete);
    assert CellOf(a, StatusEffectiveDate) == CellOf(b, StatusEffectiveDate);
  }

  /**
   * What a rule's mask sees of a frame row: converted cells as their dates.
   * A cell still raw is read as NaT; ProcessFrame shows no rule ever
   * reads one.
   */
  function View(r: FrameRow): (row: Row)
    ensures row.site == r.site && row.activation == r.activation && row.status == r.status
    ensures forall col :: CellOf(r, col).Converted? ==> DateOf(row, col) == CellOf(r, col).t
  {
    Row(r.site, r.activation, Seen(r.psvComplete), Seen(r.selected),
        Seen(r.firstSubmissionPlanned), Seen(r.allApprovalsPlanned),
        Seen(r.firstSubmissionComplete), Seen(r.allApprovalsComplete),
        r.status, Seen(r.statusEffective))
  }

  function Seen(c: Cell): Option<Timestamp> {
    match c
    case Raw(_) => None
    case Converted(t) => t
  }

  function Views(rows: seq<FrameRow>): seq<Row> {
    seq(|rows|, i requires 0 <= i < |rows| => View(rows[i]))
  }

  /** The row with every date column parsed: what the rules are specified on. */
  function Typed(r: FrameRow, parse: Parser): (row: Row)
    ensures row.site == r.site && row.activation == r.activation && row.status == r.status
    ensures forall col :: DateOf(row, col) == Coerce(parse, CellOf(r, col))
  {
    Row(r.site, r.activation, Coerce(parse, r.psvComplete), Coerce(parse, r.selected),
        Coerce(parse, r.firstSubmissionPlanned), Coerce(parse, r.allApprovalsPlanned),
        Coerce(parse, r.firstSubmissionComplete), Coerce(parse, r.allApprovalsComplete),
        r.status, Coerce(parse, r.statusEffective))
  }

  function TypedRows(rows: seq<FrameRow>, parse: Parser): seq<Row> {
    seq(|rows|, i requires 0 <= i < |rows| => Typed(rows[i], parse))
  }

  /** The order in which the program converts the date columns (lines 22-41). */
  const ConversionOrder: seq<DateColumn> :=
    [PsvComplete, Selected, FirstSubmissionPlanned, AllApprovalsPlanned,
     FirstSubmissionComplete, AllApprovalsComplete, StatusEffectiveDate]

  /** The frame after the program's first `k` column conversions, done one after the other. */
  function ConvertedUpTo(rows: seq<FrameRow>, k: nat, parse: Parser): seq<FrameRow>
    requires k <= |ConversionOrder|
  {
    if k == 0 then rows
    else ConvertColumn(ConvertedUpTo(rows, k - 1, parse), ConversionOrder[k - 1], parse)
  }

  /** How many conversions have happened when the mask of `rule` is evaluated. */
  function StageOf(rule: Rule): nat {
    match rule
    case ActivationOverdue => 0
    case PsvAfterSelected => 2
    case PlannedSubmissionAfterApproval => 4
    case ActualSubmissionAfterApproval => 6
    case SelectedStale => 7
    case SivReadyStale => 7
  }

  /** `df.loc[mask, 'SITE NUMBER']` for `rule`, on the frame as it stands when the program evaluates that mask. */
  function FlaggedInFrame(rule: Rule, rows: seq<FrameRow>, now: Timestamp, parse: Parser): seq<Option<SiteNumber>> {
    Flagged(rule, Views(ConvertedUpTo(rows, StageOf(rule), parse)), now)
  }

  /**
   * Lines 14-51 as written: rule 1 on the frame as loaded, then each rule on
   * the frame as it stands after the conversions that precede it. Overwriting
   * the date columns in place this way gives the same report as evaluating
   * every rule on the fully parsed rows.
   */
  function ProcessFrame(rows: seq<FrameRow>, now: Timestamp, parse: Parser): (r: Report)
    ensures r == ProcessRows(TypedRows(rows, parse), now)
  {
    RuleSeesTyped(ActivationOverdue, rows, now, parse);
    RuleSeesTyped(PsvAfterSelected, rows, now, parse);
    RuleSeesTyped(PlannedSubmissionAfterApproval, rows, now, parse);
    RuleSeesTyped(ActualSubmissionAfterApproval, rows, now, parse);
    RuleSeesTyped(SelectedStale, rows, now, parse);
    RuleSeesTyped(SivReadyStale, rows, now, parse);
    Report(
      FlaggedInFrame(ActivationOverdue, rows, now, parse),
      DropMissing(FlaggedInFrame(PsvAfterSelected, rows, now, parse)),
      DropMissing(FlaggedInFrame(PlannedSubmissionAfterApproval, rows, now, parse)),
      DropMissing(FlaggedInFrame(ActualSubmissionAfterApproval, rows, now, parse)),
      DropMissing(FlaggedInFrame(SelectedStale, rows, now, parse)),
      DropMissing(FlaggedInFrame(SivReadyStale, rows, now, parse)))
  }

  /** The columns converted after the first `k` conversions. */
  function Done(k: nat): set<DateColumn>
    requires k <= |ConversionOrder|
  {
    set c | c in ConversionOrder[..k]
  }

  /** `frame` is `rows` with exactly the columns in `done` converted, everything else as loaded. */
  predicate Stage(frame: seq<FrameRow>, rows: seq<FrameRow>, done: set<DateColumn>, parse: Parser) {
    && |frame| == |rows|
    && forall i :: 0 <= i < |rows| ==>
         && frame[i].site == rows[i].site
         && frame[i].activation == rows[i].activation
         && frame[i].status == rows[i].status
         && forall col :: CellOf(frame[i], col)
              == if col in done then Converted(Coerce(parse, CellOf(rows[i], col))) else CellOf(rows[i], col)
  }

  lemma ConvertStage(frame: seq<FrameRow>, rows: seq<FrameRow>, done: set<DateColumn>, col: DateColumn, parse: Parser)
    requires Stage(frame, rows, done, parse)
    ensures Stage(ConvertColumn(frame, col, parse), rows, done + {col}, parse)
  {
    var next := ConvertColumn(frame, col, parse);
    forall i, c | 0 <= i < |rows|
      ensures CellOf(next[i], c)
        == if c in done + {col} then Converted(Coerce(parse, CellOf(rows[i], c))) else CellOf(rows[i], c)
    {
      assert next[i] == ConvertCell(frame[i], col, parse);
    }
  }

  /** After `k` conversions, exactly the first `k` columns of the order are converted. */
  lemma {:induction false} ConvertedUpToStage(rows: seq<FrameRow>, k: nat, parse: Parser)
    requires k <= |ConversionOrder|
    ensures Stage(ConvertedUpTo(rows, k, parse), rows, Done(k), parse)
  {
    if k == 0 {
      assert Done(0) == {};
    } else {
      ConvertedUpToStage(rows, k - 1, parse);
      ConvertStage(ConvertedUpTo(rows, k - 1, parse), rows, Done(k - 1), ConversionOrder[k - 1], parse);
      assert ConversionOrder[..k] == ConversionOrder[..k - 1] + [ConversionOrder[k - 1]];
      assert Done(k) == Done(k - 1) + {ConversionOrder[k - 1]};
    }
  }

  /** Once the columns a rule compares are converted, the rule sees the fully parsed rows. */
  lemma StageSeesTyped(rule: Rule, frame: seq<FrameRow>, rows: seq<FrameRow>, done: set<DateColumn>, parse: Parser, now: Timestamp)
    requires Stage(frame, rows, done, parse)
    requires DatesRead(rule) <= done
    ensures Flagged(rule, Views(frame), now) == Flagged(rule, TypedRows(rows, parse), now)
  {
    var a, b := Views(frame), TypedRows(rows, parse);
    forall i | 0 <= i < |a| ensures SameInputs(rule, a[i], b[i]) {
      assert a[i] == View(frame[i]) && b[i] == Typed(rows[i], parse);
      forall col | col in DatesRead(rule) ensures DateOf(a[i], col) == DateOf(b[i], col) {
        assert CellOf(frame[i], col) == Converted(Coerce(parse, CellOf(rows[i], col)));
      }
    }
    FlaggedReadsOnlyItsColumns(rule, a, b, now);
  }

  /** Every rule runs after the conversions of the columns it compares. */
  lemma ConvertedBeforeRead(rule: Rule)
    ensures StageOf(rule) <= |ConversionOrder| && DatesRead(rule) <= Done(StageOf(rule))
  {
    var prefix := ConversionOrder[..StageOf(rule)];
    forall col | col in DatesRead(rule) ensures col in prefix {
      match col
      case PsvComplete => assert prefix[0] == col;
      case Selected => assert prefix[1] == col;
      case FirstSubmissionPlanned => assert prefix[2] == col;
      case AllApprovalsPlanned => assert prefix[3] == col;
      case FirstSubmissionComplete => assert prefix[4] == col;
      case AllApprovalsComplete => assert prefix[5] == col;
      case StatusEffectiveDate => assert prefix[6] == col;
    }
  }

  /** Each rule's mask, evaluated where the program evaluates it, sees the fully parsed rows. */
  lemma RuleSeesTyped(rule: Rule, rows: seq<FrameRow>, now: Timestamp, parse: Parser)
    ensures FlaggedInFrame(rule, rows, now, parse) == Flagged(rule, TypedRows(rows, parse), now)
  {
    ConvertedBeforeRead(rule);
    ConvertedUpToStage(rows, StageOf(rule), parse);
    StageSeesTyped(rule, ConvertedUpTo(rows, StageOf(rule), parse), rows, Done(StageOf(rule)), parse, now);
  }

  /** A loaded table: the names of its columns and its rows. */
  datatype Table = Table(columns: set<string>, rows: seq<FrameRow>)

  /** The `KeyError` pandas raises for a column the table lacks. */
  datatype SchemaError = MissingColumn(column: string)

  /** The columns `process_file` looks up, in the order it first looks each one up (lines 16-43). */
  const ColumnsInReadOrder: seq<string> := [
    "ACTIVATION COMPLETE", "SITE NUMBER", "PSV COMPLETE", "SELECTED",
    "FIRST SUBMISSION PLANNED", "ALL APPROVALS PLANNED",
    "FIRST SUBMISSION COMPLETE", "ALL APPROVALS COMPLETE",
    "SITE STATUS EFFECTIVE DATE", "SITE STATUS"]

  /** The first of `cols` missing from `present`, if any. */
  function FirstMissing(cols: seq<string>, present: set<string>): (r: Option<string>)
    ensures r.None? <==> forall k :: 0 <= k < |cols| ==> cols[k] in present
    ensures r.Some? ==> exists k :: 0 <= k < |cols| && cols[k] == r.value && r.value !in present
                                    && forall j :: 0 <= j < k ==> cols[j] in present
  {
    if cols == [] then None
    else if cols[0] !in present then Some(cols[0])
    else
      var r := FirstMissing(cols[1..], present);
      assert r.Some? ==> exists k :: 0 <= k < |cols| && cols[k] == r.value && forall j :: 0 <= j < k ==> cols[j] in present by {
        if r.Some? {
          var k :| 0 <= k < |cols[1..]| && cols[1..][k] == r.value && forall j :: 0 <= j < k ==> cols[1..][j] in present;
          assert cols[k + 1] == r.value;
          assert forall j :: 0 <= j < k + 1 ==> cols[j] in present by {
            forall j | 0 <= j < k + 1 ensures cols[j] in present {
              if j > 0 { assert cols[j] == cols[1..][j - 1]; }
            }
          }
        }
      }
      assert r.None? ==> forall k :: 0 <= k < |cols| ==> cols[k] in present by {
        if r.None? {
          forall k | 0 <= k < |cols| ensures cols[k] in present {
            if k > 0 { assert cols[k] == cols[1..][k - 1]; }
          }
        }
      }
      r
  }

  /**
   * `process_file` after loading: a KeyError naming the first missing column
   * the program looks up, and no report at all; otherwise the report, equal
   * to the six rules evaluated on the fully parsed rows.
   */
  function ProcessFile(table: Table, now: Timestamp, parse: Parser): (r: Result<Report, SchemaError>)
    ensures r.Failure? <==> exists k :: 0 <= k < |ColumnsInReadOrder| && ColumnsInReadOrder[k] !in table.columns
    ensures r.Failure? ==>
      exists k :: 0 <= k < |ColumnsInReadOrder| && ColumnsInReadOrder[k] == r.error.column
                  && r.error.column !in table.columns
                  && forall j :: 0 <= j < k ==> ColumnsInReadOrder[j] in table.columns
    ensures r.Success? ==> r.value == ProcessRows(TypedRows(table.rows, parse), now)
  {
    match FirstMissing(ColumnsInReadOrder, table.columns)
    case Some(c) => Failure(MissingColumn(c))
    case None => Success(ProcessFrame(table.rows, now, parse))
  }
}
