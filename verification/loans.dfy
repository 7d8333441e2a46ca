/** The loan records the job reads and writes, the column names it selects,
    drops and adds, and the table the CSV reader hands to the transform. */
module Loans {
  import opened Wrappers

  /** A parsed issue date: the first day of a month. */
  datatype MonthYear = MonthYear(year: int, month: int)

  /** One as-received loan row restricted to the selected columns; every cell
      is the text read from the file, or missing. */
  datatype RawLoan = RawLoan(
    loanAmnt: Option<string>,
    term: Option<string>,
    intRate: Option<string>,
    grade: Option<string>,
    empLength: Option<string>,
    homeOwnership: Option<string>,
    annualInc: Option<string>,
    verificationStatus: Option<string>,
    issueD: Option<string>,
    loanStatus: Option<string>,
    purpose: Option<string>,
    addrState: Option<string>,
    dti: Option<string>)

  /** One cleaned row, fields in the order of the output columns. */
  datatype CleanLoan = CleanLoan(
    loanAmnt: Option<real>,
    intRate: Option<real>,
    grade: Option<string>,
    homeOwnership: Option<string>,
    annualInc: Option<real>,
    verificationStatus: Option<string>,
    issueD: Option<MonthYear>,
    loanStatus: Option<string>,
    purpose: Option<string>,
    addrState: Option<string>,
    dti: Option<real>,
    termMonths: int,
    empYears: int)

  /** Why a run aborts: a selected column absent from the input, an interest
      rate that does not convert to a float, a term with no digits. */
  datatype EtlError = MissingColumns(names: seq<Col>) | IntRateNotNumeric | TermWithoutDigits

  /** Column labels. The fifteen the job names get their own constructor;
      any other header name read from the file is an Other. */
  datatype Col =
    | LoanAmnt | Term | IntRate | Grade | EmpLength | HomeOwnership | AnnualInc
    | VerificationStatus | IssueD | LoanStatus | Purpose | AddrState | Dti
    | TermMonths | EmpYears
    | Other(name: string)

  /** The thirteen columns the job keeps from the input, in its order. */
  const SelectedColumns: seq<Col> := [
    LoanAmnt, Term, IntRate, Grade, EmpLength, HomeOwnership, AnnualInc,
    VerificationStatus, IssueD, LoanStatus, Purpose, AddrState, Dti]

  /** Columns the cleaning consumes and then drops. */
  const ConsumedColumns: set<Col> := {Term, EmpLength}

  /** Columns the cleaning appends, in the order it appends them. */
  const DerivedColumns: seq<Col> := [TermMonths, EmpYears]

  /** The columns of a cleaned frame, in order. */
  const OutputColumns: seq<Col> := [
    LoanAmnt, IntRate, Grade, HomeOwnership, AnnualInc, VerificationStatus,
    IssueD, LoanStatus, Purpose, AddrState, Dti, TermMonths, EmpYears]

  predicate Distinct<T(==)>(s: seq<T>) {
    forall i, j :: 0 <= i < j < |s| ==> s[i] != s[j]
  }

  /** a keeps some of the elements of b, in the order they have in b. */
  predicate IsSubsequence<T(==)>(a: seq<T>, b: seq<T>)
    decreases |b|
  {
    if a == [] then true
    else if b == [] then false
    else if a[0] == b[0] then IsSubsequence(a[1..], b[1..])
    else IsSubsequence(a, b[1..])
  }

  /** The names of s that are not in drop, in their order. */
  function Without(s: seq<Col>, drop: set<Col>): (r: seq<Col>)
    ensures forall c :: c in r <==> c in s && c !in drop
    ensures IsSubsequence(r, s)
    ensures Distinct(s) ==> Distinct(r)
  {
    if s == [] then []
    else if s[0] in drop then Without(s[1..], drop)
    else [s[0]] + Without(s[1..], drop)
  }

  lemma {:induction false} WithoutKeepsAll(s: seq<Col>, drop: set<Col>)
    requires forall c :: c in drop ==> c !in s
    ensures Without(s, drop) == s
  {
    if s != [] {
      WithoutKeepsAll(s[1..], drop);
    }
  }

  lemma {:induction false} WithoutAppend(a: seq<Col>, b: seq<Col>, drop: set<Col>)
    ensures Without(a + b, drop) == Without(a, drop) + Without(b, drop)
  {
    if a == [] {
      assert a + b == b;
    } else {
      assert (a + b)[1..] == a[1..] + b;
      WithoutAppend(a[1..], b, drop);
    }
  }

  /** Dropping the two consumed columns from a schema that holds each once
      leaves the other columns in their order. */
  lemma DropConsumed(a: seq<Col>, b: seq<Col>, c: seq<Col>)
    requires forall x :: x in ConsumedColumns ==> x !in a && x !in b && x !in c
    ensures Without(a + ([Term] + (b + ([EmpLength] + c))), ConsumedColumns) == a + (b + c)
  {
    var d := ConsumedColumns;
    WithoutKeepsAll(a, d);
    WithoutKeepsAll(b, d);
    WithoutKeepsAll(c, d);
    WithoutAppend(a, [Term] + (b + ([EmpLength] + c)), d);
    assert ([Term] + (b + ([EmpLength] + c)))[1..] == b + ([EmpLength] + c);
    WithoutAppend(b, [EmpLength] + c, d);
    assert ([EmpLength] + c)[1..] == c;
  }

  /** The output schema: the selected columns less the consumed ones, with
      the derived ones appended at the end. */
  lemma OutputSchema()
    ensures Without(SelectedColumns + DerivedColumns, ConsumedColumns) == OutputColumns
  {
    var c := [HomeOwnership, AnnualInc, VerificationStatus, IssueD, LoanStatus,
              Purpose, AddrState, Dti, TermMonths, EmpYears];
    SchemaParts(c);
    DropConsumed([LoanAmnt], [IntRate, Grade], c);
  }

  lemma SchemaParts(c: seq<Col>)
    requires c == [HomeOwnership, AnnualInc, VerificationStatus, IssueD, LoanStatus,
                   Purpose, AddrState, Dti, TermMonths, EmpYears]
    ensures SelectedColumns + DerivedColumns
         == [LoanAmnt] + ([Term] + ([IntRate, Grade] + ([EmpLength] + c)))
    ensures OutputColumns == [LoanAmnt] + ([IntRate, Grade] + c)
  {
  }

  /** The position of a named column in the output schema (-1 for the
      others). */
  function OutputPosition(c: Col): int {
    match c
    case LoanAmnt => 0
    case IntRate => 1
    case Grade => 2
    case HomeOwnership => 3
    case AnnualInc => 4
    case VerificationStatus => 5
    case IssueD => 6
    case LoanStatus => 7
    case Purpose => 8
    case AddrState => 9
    case Dti => 10
    case TermMonths => 11
    case EmpYears => 12
    case _ => -1
  }

  /** No column appears twice in the selection or in the output. */
  lemma SchemasDistinct()
    ensures Distinct(SelectedColumns) && Distinct(OutputColumns)
  {
    forall i | 0 <= i < |OutputColumns| ensures OutputPosition(OutputColumns[i]) == i {
    }
  }

  /** The frame the CSV reader produces: a header of distinct labels and, per
      label, one column of text cells (missing where the file had none). */
  datatype CsvTable = CsvTable(header: seq<Col>, cells: map<Col, seq<Option<string>>>, height: nat)

  ghost predicate WellFormed(t: CsvTable) {
    && Distinct(t.header)
    && (forall c :: c in t.cells <==> c in t.header)
    && (forall c :: c in t.cells ==> |t.cells[c]| == t.height)
  }

  /** The wanted labels that the header lacks, in the order they are wanted. */
  function Missing(t: CsvTable, wanted: seq<Col>): (r: seq<Col>)
    ensures forall c :: c in r <==> c in wanted && c !in t.header
  {
    if wanted == [] then []
    else if wanted[0] in t.header then Missing(t, wanted[1..])
    else [wanted[0]] + Missing(t, wanted[1..])
  }

  /** The missing labels come in the order they are wanted, each once when
      the wanted ones are distinct. */
  lemma {:induction false} MissingInOrder(t: CsvTable, wanted: seq<Col>)
    ensures IsSubsequence(Missing(t, wanted), wanted)
    ensures Distinct(wanted) ==> Distinct(Missing(t, wanted))
  {
    if wanted != [] {
      MissingInOrder(t, wanted[1..]);
    }
  }

  /** The cell of column c in row i. */
  function Cell(t: CsvTable, c: Col, i: nat): Option<string> {
    if c in t.cells && i < |t.cells[c]| then t.cells[c][i] else None
  }

  /** The rows of the selected columns, read as records. */
  function RawRows(t: CsvTable): (rows: seq<RawLoan>)
    ensures |rows| == t.height
  {
    seq(t.height, i requires 0 <= i < t.height =>
      RawLoan(
        Cell(t, LoanAmnt, i), Cell(t, Term, i), Cell(t, IntRate, i), Cell(t, Grade, i),
        Cell(t, EmpLength, i), Cell(t, HomeOwnership, i), Cell(t, AnnualInc, i),
        Cell(t, VerificationStatus, i), Cell(t, IssueD, i), Cell(t, LoanStatus, i),
        Cell(t, Purpose, i), Cell(t, AddrState, i), Cell(t, Dti, i)))
  }

  /** The number of rows whose loan_status is missing. */
  function NullStatusCount(rows: seq<RawLoan>): (n: nat)
    ensures n <= |rows|
  {
    if rows == [] then 0
    else (if rows[0].loanStatus.None? then 1 else 0) + NullStatusCount(rows[1..])
  }

  /** The raw rows whose loan_status is present, in their order. */
  function WithStatus(rows: seq<RawLoan>): (r: seq<RawLoan>)
    ensures |r| == |rows| - NullStatusCount(rows)
    ensures forall x :: x in r ==> x.loanStatus.Some? && x in rows
  {
    if rows == [] then []
    else if rows[0].loanStatus.None? then WithStatus(rows[1..])
    else [rows[0]] + WithStatus(rows[1..])
  }
}
