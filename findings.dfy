/** The findings library: rows of past audit findings whose cells may be
    missing, and the loader (`load_findings`) that appends an uploaded table
    to the default library and normalises the cells: null text in the six
    columns issue_title, issue_detail, cause_detail, recommendation, program
    and unit becomes "" (the other text columns keep their nulls), a missing
    or non-numeric year becomes 0, and a missing or non-numeric severity
    becomes 3 before every severity is clipped to 1..5. */
module Findings {
  import opened Wrappers

  /** The columns of the library that the core reads. */
  datatype Column =
    | FindingId | Year | Unit | Program | IssueTitle | IssueDetail
    | CauseCategory | CauseDetail | Recommendation | OutcomesImpact | Severity

  predicate IsTextColumn(c: Column) {
    c != Year && c != Severity
  }

  /** One row of the library. `None` is a null cell, which is also what a row
      holds in a column that only the other source of a concatenation has.
      For `year` and `severity`, `None` also stands for a cell that is not a
      number, which the loader's numeric coercion turns into a null. */
  datatype Finding = Finding(
    findingId: Option<string>,
    year: Option<int>,
    unit: Option<string>,
    program: Option<string>,
    issueTitle: Option<string>,
    issueDetail: Option<string>,
    causeCategory: Option<string>,
    causeDetail: Option<string>,
    recommendation: Option<string>,
    outcomesImpact: Option<string>,
    severity: Option<int>)

  /** The cell of a text column. */
  function TextCell(r: Finding, c: Column): Option<string>
    requires IsTextColumn(c)
  {
    match c
    case FindingId => r.findingId
    case Unit => r.unit
    case Program => r.program
    case IssueTitle => r.issueTitle
    case IssueDetail => r.issueDetail
    case CauseCategory => r.causeCategory
    case CauseDetail => r.causeDetail
    case Recommendation => r.recommendation
    case OutcomesImpact => r.outcomesImpact
  }

  /** The row with the cell of text column `c` replaced by `v`. */
  function WithText(r: Finding, c: Column, v: Option<string>): (r': Finding)
    requires IsTextColumn(c)
    ensures TextCell(r', c) == v
    ensures forall d :: IsTextColumn(d) && d != c ==> TextCell(r', d) == TextCell(r, d)
    ensures r'.year == r.year && r'.severity == r.severity
  {
    match c
    case FindingId => r.(findingId := v)
    case Unit => r.(unit := v)
    case Program => r.(program := v)
    case IssueTitle => r.(issueTitle := v)
    case IssueDetail => r.(issueDetail := v)
    case CauseCategory => r.(causeCategory := v)
    case CauseDetail => r.(causeDetail := v)
    case Recommendation => r.(recommendation := v)
    case OutcomesImpact => r.(outcomesImpact := v)
  }

  /** The cell of column `c` is not null. */
  predicate Has(r: Finding, c: Column) {
    if c == Year then r.year.Some?
    else if c == Severity then r.severity.Some?
    else TextCell(r, c).Some?
  }

  /** A table: the set of the modelled columns it has, whether it also has
      columns outside those eleven (their cells are not represented), and its
      rows in order. */
  datatype Table = Table(columns: set<Column>, otherColumns: bool, rows: seq<Finding>)

  /** Every cell of a column the table lacks is null. */
  predicate WellFormed(t: Table) {
    forall i, c :: 0 <= i < |t.rows| && c !in t.columns ==> !Has(t.rows[i], c)
  }

  /** pandas' `DataFrame.empty`: no rows, or no columns of any kind. */
  predicate IsEmpty(t: Table) {
    |t.rows| == 0 || (t.columns == {} && !t.otherColumns)
  }

  /** `pd.concat([a, b], ignore_index=True)`: the rows of `a` then those of
      `b`, over the union of the columns. */
  function Concat(a: Table, b: Table): (r: Table)
    ensures WellFormed(a) && WellFormed(b) ==> WellFormed(r)
  {
    var r := Table(a.columns + b.columns, a.otherColumns || b.otherColumns, a.rows + b.rows);
    assert forall i :: 0 <= i < |r.rows| ==> r.rows[i] == if i < |a.rows| then a.rows[i] else b.rows[i - |a.rows|];
    r
  }

  /** The library before cleaning: the default library (already an empty
      table when its file is absent or unreadable), with the uploaded table
      appended when one was read and is not empty. `None` stands for no
      upload, an upload that could not be read, and a file that is neither
      CSV nor a spreadsheet. */
  function Combine(default: Table, upload: Option<Table>): (t: Table)
    ensures |t.rows| == |default.rows| + if upload.Some? && !IsEmpty(upload.value) then |upload.value.rows| else 0
    ensures default.columns <= t.columns
    ensures WellFormed(default) && (upload.Some? ==> WellFormed(upload.value)) ==> WellFormed(t)
  {
    match upload
    case Some(u) => if IsEmpty(u) then default else Concat(default, u)
    case None => default
  }

  /** The default rows come first and in order, then the uploaded rows in
      order; an upload that is missing, unreadable or empty leaves the
      default library exactly as it was. */
  lemma CombineOrder(default: Table, upload: Option<Table>)
    ensures var t := Combine(default, upload);
      t.rows[..|default.rows|] == default.rows
      && (upload.None? || IsEmpty(upload.value) ==> t == default)
      && (upload.Some? && !IsEmpty(upload.value) ==>
            t.rows[|default.rows|..] == upload.value.rows
            && t.columns == default.columns + upload.value.columns
            && t.otherColumns == (default.otherColumns || upload.value.otherColumns))
  {
    var t := Combine(default, upload);
    if upload.Some? && !IsEmpty(upload.value) {
      assert t.rows == default.rows + upload.value.rows;
    }
  }

  /** An upload with rows is appended even when none of its columns is one
      of the eleven the loader knows: pandas does not call it empty. */
  lemma UnknownColumnsAppended(default: Table, u: Table)
    requires |u.rows| > 0 && u.columns == {} && u.otherColumns
    ensures Combine(default, Some(u)).rows == default.rows + u.rows
  {
  }

  /** The text columns whose nulls the loader replaces by "". */
  const FilledColumns: seq<Column> :=
    [IssueTitle, IssueDetail, CauseDetail, Recommendation, Program, Unit]

  /** pandas' `clip(lo, hi)`. */
  function Clip(x: int, lo: int, hi: int): int {
    if x < lo then lo else if x > hi then hi else x
  }

  /** `fillna("")` on one text cell. */
  function FillText(r: Finding, c: Column): Finding
    requires IsTextColumn(c)
  {
    WithText(r, c, Some(TextCell(r, c).GetOr("")))
  }

  /** The text cells of the columns `cs` that the table has, filled in turn. */
  function FillTexts(columns: set<Column>, cs: seq<Column>, r: Finding): Finding
    requires forall k :: 0 <= k < |cs| ==> IsTextColumn(cs[k])
  {
    if cs == [] then r
    else
      var before := FillTexts(columns, cs[..|cs| - 1], r);
      var c := cs[|cs| - 1];
      if c in columns then FillText(before, c) else before
  }

  /** `pd.to_numeric(year, errors="coerce").fillna(0).astype(int)`. */
  function CoerceYear(r: Finding): Finding {
    r.(year := Some(r.year.GetOr(0)))
  }

  /** `pd.to_numeric(severity, errors="coerce").fillna(3).clip(1, 5).astype(int)`. */
  function CoerceSeverity(r: Finding): Finding {
    r.(severity := Some(Clip(r.severity.GetOr(3), 1, 5)))
  }

  /** What the loader does to one row of a table with the given columns. */
  function CleanRow(columns: set<Column>, r: Finding): (r': Finding)
    ensures Year in columns ==> r'.year.Some?
    ensures Severity in columns ==> r'.severity.Some? && 1 <= r'.severity.value <= 5
  {
    var filled := FillTexts(columns, FilledColumns, r);
    var dated := if Year in columns then CoerceYear(filled) else filled;
    if Severity in columns then CoerceSeverity(dated) else dated
  }

  /** Filling text cells touches only the text cells of the listed columns
      that the table has, gives each of those a value, and keeps every value
      that was already there. */
  lemma {:induction false} FillTextsCells(columns: set<Column>, cs: seq<Column>, r: Finding, c: Column)
    requires forall k :: 0 <= k < |cs| ==> IsTextColumn(cs[k])
    requires IsTextColumn(c)
    ensures var r' := FillTexts(columns, cs, r);
      r'.year == r.year && r'.severity == r.severity
      && (c in cs && c in columns ==> TextCell(r', c) == Some(TextCell(r, c).GetOr("")))
      && (c !in cs || c !in columns ==> TextCell(r', c) == TextCell(r, c))
  {
    if cs != [] {
      var front := cs[..|cs| - 1];
      FillTextsCells(columns, front, r, c);
      assert c in cs <==> c in front || c == cs[|cs| - 1];
    }
  }

  /** After cleaning, the six filled text columns the table has hold no null;
      the year is the number it was or 0; the severity is the number it was,
      3 when it was not a number, and always within 1..5 (0 becomes 1 and 7
      becomes 5); every other cell is left as it was. */
  lemma CleanRowCells(columns: set<Column>, r: Finding, c: Column)
    ensures var r' := CleanRow(columns, r);
      (IsTextColumn(c) && c in FilledColumns && c in columns ==>
         TextCell(r', c) == Some(TextCell(r, c).GetOr("")))
      && (IsTextColumn(c) && (c !in FilledColumns || c !in columns) ==>
         TextCell(r', c) == TextCell(r, c))
      && (Year in columns ==> r'.year == Some(r.year.GetOr(0)))
      && (Year !in columns ==> r'.year == r.year)
      && (Severity in columns ==> r'.severity.Some? && 1 <= r'.severity.value <= 5)
      && (Severity in columns && r.severity.None? ==> r'.severity == Some(3))
      && (Severity in columns && r.severity.Some? ==>
            r'.severity == Some(if r.severity.value < 1 then 1 else if r.severity.value > 5 then 5 else r.severity.value))
      && (Severity !in columns ==> r'.severity == r.severity)
  {
    if IsTextColumn(c) {
      FillTextsCells(columns, FilledColumns, r, c);
    } else {
      FillTextsCells(columns, FilledColumns, r, IssueTitle);
    }
  }

  /** A cleaned table: well formed, with a value in every filled text column
      it has, a year in every row when it has a year column, and a severity
      within 1..5 in every row when it has a severity column. */
  predicate Cleaned(t: Table) {
    WellFormed(t)
    && forall i :: 0 <= i < |t.rows| ==>
      (forall c :: c in FilledColumns && c in t.columns ==> Has(t.rows[i], c))
      && (Year in t.columns ==> t.rows[i].year.Some?)
      && (Severity in t.columns ==> t.rows[i].severity.Some? && 1 <= t.rows[i].severity.value <= 5)
  }

  /** Cleaning a row of a well-formed table keeps the null cells of the
      columns the table lacks. */
  lemma CleanRowKeepsAbsent(columns: set<Column>, r: Finding, c: Column)
    requires c !in columns && !Has(r, c)
    ensures !Has(CleanRow(columns, r), c)
  {
    CleanRowCells(columns, r, c);
  }

  /** `load_findings`: combine the default library and the upload, then, when
      the result is not empty, fill the nulls of each of the six text columns
      it has, coerce its year column and coerce and clip its severity column,
      one column at a time. */
  method LoadFindings(default: Table, upload: Option<Table>) returns (t: Table)
    ensures var combined := Combine(default, upload);
      t.columns == combined.columns && t.otherColumns == combined.otherColumns
      && |t.rows| == |combined.rows|
      && (forall i :: 0 <= i < |t.rows| ==> t.rows[i] == CleanRow(combined.columns, combined.rows[i]))
    ensures WellFormed(default) && (upload.Some? ==> WellFormed(upload.value)) ==> Cleaned(t)
  {
    t := default;
    match upload {
      case Some(u) =>
        if !IsEmpty(u) {
          t := Concat(t, u);
        }
      case None =>
    }
    ghost var combined := t;
    if !IsEmpty(t) {
      t := CleanColumns(t);
    } else {
      forall i | 0 <= i < |t.rows| ensures t.rows[i] == CleanRow(combined.columns, combined.rows[i]) {
        CleanRowUntouched(combined.columns, combined.rows[i]);
      }
    }
    if WellFormed(default) && (upload.Some? ==> WellFormed(upload.value)) {
      LoadedIsCleaned(combined, t);
    }
  }

  /** The cleaning of a non-empty library: the text columns filled, then the
      year coerced, then the severity coerced and clipped, each only when the
      table has that column. */
  method CleanColumns(combined: Table) returns (t: Table)
    ensures t.columns == combined.columns && t.otherColumns == combined.otherColumns
    ensures |t.rows| == |combined.rows|
    ensures forall i :: 0 <= i < |t.rows| ==> t.rows[i] == CleanRow(combined.columns, combined.rows[i])
  {
    t := FillColumns(combined);
    if Year in t.columns {
      var rows := t.rows;
      t := t.(rows := seq(|rows|, i requires 0 <= i < |rows| => CoerceYear(rows[i])));
    }
    if Severity in t.columns {
      var rows := t.rows;
      t := t.(rows := seq(|rows|, i requires 0 <= i < |rows| => CoerceSeverity(rows[i])));
    }
  }

  /** `fillna("")` on each of the six text columns the table has, one column
      at a time. */
  method FillColumns(combined: Table) returns (t: Table)
    ensures t.columns == combined.columns && t.otherColumns == combined.otherColumns
    ensures |t.rows| == |combined.rows|
    ensures forall i :: 0 <= i < |t.rows| ==> t.rows[i] == FillTexts(combined.columns, FilledColumns, combined.rows[i])
  {
    t := combined;
    for k := 0 to |FilledColumns|
      invariant t.columns == combined.columns && t.otherColumns == combined.otherColumns
      invariant |t.rows| == |combined.rows|
      invariant forall i :: 0 <= i < |t.rows| ==>
        t.rows[i] == FillTexts(combined.columns, FilledColumns[..k], combined.rows[i])
    {
      var c := FilledColumns[k];
      assert FilledColumns[..k + 1][..k] == FilledColumns[..k];
      if c in t.columns {
        var rows := t.rows;
        t := t.(rows := seq(|rows|, i requires 0 <= i < |rows| => FillText(rows[i], c)));
      }
    }
    assert FilledColumns[..|FilledColumns|] == FilledColumns;
  }

  /** A table without columns is left alone by cleaning. */
  lemma CleanRowUntouched(columns: set<Column>, r: Finding)
    requires columns == {}
    ensures CleanRow(columns, r) == r
  {
    FillTextsEmpty(FilledColumns, r);
  }

  lemma {:induction false} FillTextsEmpty(cs: seq<Column>, r: Finding)
    requires forall k :: 0 <= k < |cs| ==> IsTextColumn(cs[k])
    ensures FillTexts({}, cs, r) == r
  {
    if cs != [] {
      FillTextsEmpty(cs[..|cs| - 1], r);
    }
  }

  /** Cleaning every row of a well-formed table yields a cleaned table. */
  lemma LoadedIsCleaned(combined: Table, t: Table)
    requires WellFormed(combined)
    requires t.columns == combined.columns && |t.rows| == |combined.rows|
    requires forall i :: 0 <= i < |t.rows| ==> t.rows[i] == CleanRow(combined.columns, combined.rows[i])
    ensures Cleaned(t)
  {
    forall i, c | 0 <= i < |t.rows|
      ensures c !in t.columns ==> !Has(t.rows[i], c)
      ensures c in FilledColumns && c in t.columns ==> Has(t.rows[i], c)
    {
      CleanRowCells(combined.columns, combined.rows[i], c);
    }
    forall i | 0 <= i < |t.rows|
      ensures Year in t.columns ==> t.rows[i].year.Some?
      ensures Severity in t.columns ==> t.rows[i].severity.Some? && 1 <= t.rows[i].severity.value <= 5
    {
      CleanRowCells(combined.columns, combined.rows[i], Year);
    }
  }
}
