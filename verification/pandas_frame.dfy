/** The pandas job as it runs: a frame of typed columns that the job selects,
    then updates column by column in place, then narrows by dropping two
    columns and the rows without a loan_status. RunEtl is proved to produce,
    column for column, the rows the row-level rules of PandasRules give. */
module PandasFrame {
  import opened Wrappers
  import opened Loans
  import opened PandasRules

  /** One column of a frame with its dtype: text (object), float, integer or
      datetime. Null cells are None; integer columns have none. */
  datatype Column =
    | Text(texts: seq<Option<string>>)
    | Floats(floats: seq<Option<real>>)
    | Ints(ints: seq<int>)
    | Dates(dates: seq<Option<MonthYear>>)

  function Height(c: Column): nat {
    match c
    case Text(xs) => |xs|
    case Floats(xs) => |xs|
    case Ints(xs) => |xs|
    case Dates(xs) => |xs|
  }

  function CountTrue(keep: seq<bool>): (n: nat)
    ensures n <= |keep|
  {
    if keep == [] then 0 else (if keep[0] then 1 else 0) + CountTrue(keep[1..])
  }

  /** The elements of xs at the positions where keep holds, in order. */
  function Masked<T>(xs: seq<T>, keep: seq<bool>): (r: seq<T>)
    requires |keep| == |xs|
    ensures |r| == CountTrue(keep)
  {
    if xs == [] then [] else (if keep[0] then [xs[0]] else []) + Masked(xs[1..], keep[1..])
  }

  function MaskColumn(c: Column, keep: seq<bool>): (r: Column)
    requires |keep| == Height(c)
    ensures Height(r) == CountTrue(keep)
  {
    match c
    case Text(xs) => Text(Masked(xs, keep))
    case Floats(xs) => Floats(Masked(xs, keep))
    case Ints(xs) => Ints(Masked(xs, keep))
    case Dates(xs) => Dates(Masked(xs, keep))
  }

  /** Which cells of a column are not null. */
  function NotNullMask(c: Column): (keep: seq<bool>)
    ensures |keep| == Height(c)
  {
    match c
    case Text(xs) => seq(|xs|, i requires 0 <= i < |xs| => xs[i].Some?)
    case Floats(xs) => seq(|xs|, i requires 0 <= i < |xs| => xs[i].Some?)
    case Ints(xs) => seq(|xs|, i requires 0 <= i < |xs| => true)
    case Dates(xs) => seq(|xs|, i requires 0 <= i < |xs| => xs[i].Some?)
  }

  /** A data frame: an ordered list of distinct column labels, one column
      per label, every column of the same height. */
  class DataFrame {
    var names: seq<Col>
    var columns: map<Col, Column>
    var height: nat

    ghost predicate Valid()
      reads this
    {
      && Distinct(names)
      && (forall c :: c in columns <==> c in names)
      && (forall c :: c in columns ==> Height(columns[c]) == height)
    }

    constructor (names: seq<Col>, columns: map<Col, Column>, height: nat)
      requires Distinct(names)
      requires forall c :: c in columns <==> c in names
      requires forall c :: c in columns ==> Height(columns[c]) == height
      ensures Valid()
      ensures this.names == names && this.columns == columns && this.height == height
    {
      this.names := names;
      this.columns := columns;
      this.height := height;
    }

    /** Assigning a whole column by label: an existing column is replaced in
        place, a new one is appended after the others. */
    method Assign(name: Col, values: Column)
      requires Valid() && Height(values) == height
      modifies this
      ensures Valid()
      ensures names == if name in old(names) then old(names) else old(names) + [name]
      ensures columns == old(columns)[name := values] && height == old(height)
    {
      if name !in names {
        names := names + [name];
      }
      columns := columns[name := values];
    }

    /** A new frame without the dropped columns; the others keep their
        order and contents. */
    method Drop(drop: set<Col>) returns (f: DataFrame)
      requires Valid()
      requires forall c :: c in drop ==> c in names
      ensures fresh(f) && f.Valid()
      ensures f.names == Without(names, drop) && f.height == height
      ensures f.columns == map c | c in columns && c !in drop :: columns[c]
    {
      f := new DataFrame(Without(names, drop), map c | c in columns && c !in drop :: columns[c], height);
    }

    /** A new frame holding only the rows whose cell in column name is not
        null, in their order. */
    method DropNa(name: Col) returns (f: DataFrame)
      requires Valid() && name in columns
      ensures fresh(f) && f.Valid()
      ensures f.names == names
      ensures f.height == CountTrue(NotNullMask(columns[name]))
      ensures f.columns == map c | c in columns :: MaskColumn(columns[c], NotNullMask(columns[name]))
    {
      var keep := NotNullMask(columns[name]);
      f := new DataFrame(names, map c | c in columns :: MaskColumn(columns[c], keep), CountTrue(keep));
    }
  }

  /** Selecting columns by label: a new frame of the wanted columns in the
      wanted order; a label the input lacks raises. */
  method SelectColumns(t: CsvTable, keep: seq<Col>) returns (r: Result<DataFrame, EtlError>)
    requires WellFormed(t) && Distinct(keep)
    ensures r.Err? <==> Missing(t, keep) != []
    ensures r.Err? ==> r.error == MissingColumns(Missing(t, keep))
    ensures r.Ok? ==> && fresh(r.value) && r.value.Valid()
                      && r.value.names == keep && r.value.height == t.height
                      && r.value.columns == map c | c in keep :: Text(t.cells[c])
  {
    var missing := Missing(t, keep);
    if missing != [] {
      return Err(MissingColumns(missing));
    }
    assert forall c :: c in keep ==> c in t.cells;
    var f := new DataFrame(keep, map c | c in keep :: Text(t.cells[c]), t.height);
    r := Ok(f);
  }

  // ------------------------------------------------- the column-wise rules

  function NumericColumn(p: NumberParsers, xs: seq<Option<string>>): (r: seq<Option<real>>)
    ensures |r| == |xs|
  {
    seq(|xs|, i requires 0 <= i < |xs| => ToNumeric(p, xs[i]))
  }

  /** The int_rate cast over a whole column raises when any cell fails. */
  function IntRateColumn(p: NumberParsers, xs: seq<Option<string>>): (r: Result<seq<Option<real>>, EtlError>)
    ensures r.Ok? ==> |r.value| == |xs|
  {
    if exists i :: 0 <= i < |xs| && !IntRateConverts(p, xs[i]) then Err(IntRateNotNumeric)
    else Ok(seq(|xs|, i requires 0 <= i < |xs| => IntRateValue(p, xs[i])))
  }

  function DateColumn(xs: seq<Option<string>>): (r: seq<Option<MonthYear>>)
    ensures |r| == |xs|
  {
    seq(|xs|, i requires 0 <= i < |xs| => ToMonthYear(xs[i]))
  }

  /** The term extraction and integer cast over a whole column raises when
      any cell has no digits. */
  function TermColumn(xs: seq<Option<string>>): (r: Result<seq<int>, EtlError>)
    ensures r.Ok? ==> |r.value| == |xs|
  {
    if exists i :: 0 <= i < |xs| && ExtractTermMonths(xs[i]).None? then Err(TermWithoutDigits)
    else Ok(seq(|xs|, i requires 0 <= i < |xs| => ExtractTermMonths(xs[i]).value))
  }

  function EmpYearsColumn(xs: seq<Option<string>>): (r: seq<int>)
    ensures |r| == |xs|
  {
    seq(|xs|, i requires 0 <= i < |xs| => CleanEmpLength(xs[i]))
  }

  // -------------------------------------------- the rows seen as columns

  function LoanAmntOf(r: CleanLoan): Option<real> { r.loanAmnt }
  function IntRateOf(r: CleanLoan): Option<real> { r.intRate }
  function GradeOf(r: CleanLoan): Option<string> { r.grade }
  function HomeOwnershipOf(r: CleanLoan): Option<string> { r.homeOwnership }
  function AnnualIncOf(r: CleanLoan): Option<real> { r.annualInc }
  function VerificationStatusOf(r: CleanLoan): Option<string> { r.verificationStatus }
  function IssueDOf(r: CleanLoan): Option<MonthYear> { r.issueD }
  function LoanStatusOf(r: CleanLoan): Option<string> { r.loanStatus }
  function PurposeOf(r: CleanLoan): Option<string> { r.purpose }
  function AddrStateOf(r: CleanLoan): Option<string> { r.addrState }
  function DtiOf(r: CleanLoan): Option<real> { r.dti }
  function TermMonthsOf(r: CleanLoan): int { r.termMonths }
  function EmpYearsOf(r: CleanLoan): int { r.empYears }

  function Project<T>(rows: seq<CleanLoan>, f: CleanLoan -> T): (r: seq<T>)
    ensures |r| == |rows|
  {
    seq(|rows|, i requires 0 <= i < |rows| => f(rows[i]))
  }

  lemma ProjectIndex<T>(rows: seq<CleanLoan>, f: CleanLoan -> T)
    ensures forall i :: 0 <= i < |rows| ==> Project(rows, f)[i] == f(rows[i])
  {
  }

  /** The labels of the output frame. */
  const OutputLabels: set<Col> := set c | c in OutputColumns

  predicate IsOutput(c: Col) {
    c in OutputLabels
  }

  /** The consumed and the unknown labels are not output labels. */
  lemma OutputLabelsOnly(c: Col)
    ensures IsOutput(c) <==> !(c.Term? || c.EmpLength? || c.Other?)
  {
  }

  /** The column labelled c of the output frame that holds the given rows. */
  function ColumnOf(rows: seq<CleanLoan>, c: Col): Column
    requires IsOutput(c)
  {
    match c
    case LoanAmnt => Floats(Project(rows, LoanAmntOf))
    case IntRate => Floats(Project(rows, IntRateOf))
    case Grade => Text(Project(rows, GradeOf))
    case HomeOwnership => Text(Project(rows, HomeOwnershipOf))
    case AnnualInc => Floats(Project(rows, AnnualIncOf))
    case VerificationStatus => Text(Project(rows, VerificationStatusOf))
    case IssueD => Dates(Project(rows, IssueDOf))
    case LoanStatus => Text(Project(rows, LoanStatusOf))
    case Purpose => Text(Project(rows, PurposeOf))
    case AddrState => Text(Project(rows, AddrStateOf))
    case Dti => Floats(Project(rows, DtiOf))
    case TermMonths => Ints(Project(rows, TermMonthsOf))
    case EmpYears => Ints(Project(rows, EmpYearsOf))
  }

  /** The columns of the output frame that holds the given rows. */
  function ColumnsOf(rows: seq<CleanLoan>): map<Col, Column> {
    map c | c in OutputLabels :: ColumnOf(rows, c)
  }

  function StatusMask(rows: seq<CleanLoan>): (keep: seq<bool>)
    ensures |keep| == |rows|
  {
    seq(|rows|, i requires 0 <= i < |rows| => rows[i].loanStatus.Some?)
  }

  /** Projecting the filtered rows is masking the projected column. */
  lemma {:induction false} ProjectDropNull<T>(rows: seq<CleanLoan>, f: CleanLoan -> T)
    ensures Project(DropNullStatus(rows), f) == Masked(Project(rows, f), StatusMask(rows))
  {
    if rows != [] {
      var rest := rows[1..];
      ProjectDropNull(rest, f);
      assert Project(rows, f)[1..] == Project(rest, f);
      assert StatusMask(rows)[1..] == StatusMask(rest);
      if rows[0].loanStatus.Some? {
        assert Project([rows[0]] + DropNullStatus(rest), f)
            == [f(rows[0])] + Project(DropNullStatus(rest), f);
      }
    }
  }

  /** Masking one output column by the loan_status mask gives that column
      of the rows that have a loan_status. */
  lemma MaskedColumn(rows: seq<CleanLoan>, c: Col)
    requires IsOutput(c)
    ensures MaskColumn(ColumnOf(rows, c), StatusMask(rows)) == ColumnOf(DropNullStatus(rows), c)
  {
    match c
    case LoanAmnt => ProjectDropNull(rows, LoanAmntOf);
    case IntRate => ProjectDropNull(rows, IntRateOf);
    case Grade => ProjectDropNull(rows, GradeOf);
    case HomeOwnership => ProjectDropNull(rows, HomeOwnershipOf);
    case AnnualInc => ProjectDropNull(rows, AnnualIncOf);
    case VerificationStatus => ProjectDropNull(rows, VerificationStatusOf);
    case IssueD => ProjectDropNull(rows, IssueDOf);
    case LoanStatus => ProjectDropNull(rows, LoanStatusOf);
    case Purpose => ProjectDropNull(rows, PurposeOf);
    case AddrState => ProjectDropNull(rows, AddrStateOf);
    case Dti => ProjectDropNull(rows, DtiOf);
    case TermMonths => ProjectDropNull(rows, TermMonthsOf);
    case EmpYears => ProjectDropNull(rows, EmpYearsOf);
  }

  /** Dropping the rows whose loan_status is null from the frame of some
      rows leaves the frame of the rows that have one. */
  lemma StatusFilter(rows: seq<CleanLoan>)
    ensures var cols := ColumnsOf(rows);
      && LoanStatus in cols
      && CountTrue(NotNullMask(cols[LoanStatus])) == |DropNullStatus(rows)|
      && (map c | c in cols :: MaskColumn(cols[c], NotNullMask(cols[LoanStatus])))
         == ColumnsOf(DropNullStatus(rows))
  {
    var cols := ColumnsOf(rows);
    var keep := StatusMask(rows);
    ProjectIndex(rows, LoanStatusOf);
    assert NotNullMask(cols[LoanStatus]) == keep;
    var masked := map c | c in cols :: MaskColumn(cols[c], keep);
    var want := ColumnsOf(DropNullStatus(rows));
    assert masked.Keys == want.Keys;
    forall c | c in masked ensures masked[c] == want[c] {
      MaskedColumn(rows, c);
    }
    assert masked == want;
    ProjectDropNull(rows, LoanStatusOf);
    assert |Project(DropNullStatus(rows), LoanStatusOf)| == |DropNullStatus(rows)|;
  }

  /** The table holds every selected column. */
  predicate AllSelected(t: CsvTable) {
    && LoanAmnt in t.cells && Term in t.cells && IntRate in t.cells
    && Grade in t.cells && EmpLength in t.cells && HomeOwnership in t.cells
    && AnnualInc in t.cells && VerificationStatus in t.cells && IssueD in t.cells
    && LoanStatus in t.cells && Purpose in t.cells && AddrState in t.cells
    && Dti in t.cells
  }

  /** Every selected column is present once the selection succeeded. */
  lemma SelectedPresent(t: CsvTable)
    requires WellFormed(t) && Missing(t, SelectedColumns) == []
    ensures AllSelected(t)
    ensures && LoanAmnt in t.cells && Term in t.cells && IntRate in t.cells
            && Grade in t.cells && EmpLength in t.cells && HomeOwnership in t.cells
            && AnnualInc in t.cells && VerificationStatus in t.cells && IssueD in t.cells
            && LoanStatus in t.cells && Purpose in t.cells && AddrState in t.cells
            && Dti in t.cells
  {
    assert forall c :: c in SelectedColumns ==> c in t.header;
  }

  /** Row i of the raw rows holds the i-th cell of every selected column. */
  lemma RawFields(t: CsvTable, i: nat)
    requires WellFormed(t) && Missing(t, SelectedColumns) == [] && i < t.height
    ensures AllSelected(t)
    ensures var x := RawRows(t)[i];
      && x.loanAmnt == t.cells[LoanAmnt][i] && x.term == t.cells[Term][i]
      && x.intRate == t.cells[IntRate][i] && x.grade == t.cells[Grade][i]
      && x.empLength == t.cells[EmpLength][i] && x.homeOwnership == t.cells[HomeOwnership][i]
      && x.annualInc == t.cells[AnnualInc][i]
      && x.verificationStatus == t.cells[VerificationStatus][i]
      && x.issueD == t.cells[IssueD][i] && x.loanStatus == t.cells[LoanStatus][i]
      && x.purpose == t.cells[Purpose][i] && x.addrState == t.cells[AddrState][i]
      && x.dti == t.cells[Dti][i]
  {
    SelectedPresent(t);
  }

  /** The numeric casts compute the numeric columns of the cleaned rows. */
  lemma NumericCleaned(p: NumberParsers, t: CsvTable, rows: seq<CleanLoan>)
    requires WellFormed(t) && Missing(t, SelectedColumns) == []
    requires forall r :: r in RawRows(t) ==> Convertible(p, r)
    requires rows == CleanAll(p, RawRows(t))
    ensures LoanAmnt in t.cells && AnnualInc in t.cells && Dti in t.cells && IssueD in t.cells
    ensures NumericColumn(p, t.cells[LoanAmnt]) == Project(rows, LoanAmntOf)
    ensures NumericColumn(p, t.cells[AnnualInc]) == Project(rows, AnnualIncOf)
    ensures NumericColumn(p, t.cells[Dti]) == Project(rows, DtiOf)
    ensures DateColumn(t.cells[IssueD]) == Project(rows, IssueDOf)
  {
    ProjectIndex(rows, LoanAmntOf);
    ProjectIndex(rows, AnnualIncOf);
    ProjectIndex(rows, DtiOf);
    ProjectIndex(rows, IssueDOf);
    SelectedPresent(t);
    var raws := RawRows(t);
    forall i | 0 <= i < |rows|
      ensures && NumericColumn(p, t.cells[LoanAmnt])[i] == Project(rows, LoanAmntOf)[i]
              && NumericColumn(p, t.cells[AnnualInc])[i] == Project(rows, AnnualIncOf)[i]
              && NumericColumn(p, t.cells[Dti])[i] == Project(rows, DtiOf)[i]
              && DateColumn(t.cells[IssueD])[i] == Project(rows, IssueDOf)[i]
    {
      RawFields(t, i);
      assert raws[i] in raws;
      assert rows[i] == CleanRow(p, raws[i]);
    }
  }

  /** The int_rate, term and emp_length rules compute their columns of the
      cleaned rows. */
  lemma DerivedCleaned(p: NumberParsers, t: CsvTable, rows: seq<CleanLoan>)
    requires WellFormed(t) && Missing(t, SelectedColumns) == []
    requires forall r :: r in RawRows(t) ==> Convertible(p, r)
    requires rows == CleanAll(p, RawRows(t))
    ensures IntRate in t.cells && Term in t.cells && EmpLength in t.cells
    ensures IntRateColumn(p, t.cells[IntRate]) == Ok(Project(rows, IntRateOf))
    ensures TermColumn(t.cells[Term]) == Ok(Project(rows, TermMonthsOf))
    ensures EmpYearsColumn(t.cells[EmpLength]) == Project(rows, EmpYearsOf)
  {
    ProjectIndex(rows, IntRateOf);
    ProjectIndex(rows, TermMonthsOf);
    ProjectIndex(rows, EmpYearsOf);
    SelectedPresent(t);
    var raws := RawRows(t);
    forall i | 0 <= i < |rows|
      ensures && IntRateConverts(p, t.cells[IntRate][i])
              && ExtractTermMonths(t.cells[Term][i]).Some?
              && IntRateValue(p, t.cells[IntRate][i]) == rows[i].intRate
              && ExtractTermMonths(t.cells[Term][i]).value == rows[i].termMonths
              && EmpYearsColumn(t.cells[EmpLength])[i] == Project(rows, EmpYearsOf)[i]
    {
      RawFields(t, i);
      assert raws[i] in raws;
      assert rows[i] == CleanRow(p, raws[i]);
    }
    assert IntRateColumn(p, t.cells[IntRate]).Ok?;
    assert IntRateColumn(p, t.cells[IntRate]).value == Project(rows, IntRateOf);
    assert TermColumn(t.cells[Term]).Ok?;
    assert TermColumn(t.cells[Term]).value == Project(rows, TermMonthsOf);
  }

  /** The text columns pass through as the cleaned rows' text fields. */
  lemma PassedThrough(p: NumberParsers, t: CsvTable, rows: seq<CleanLoan>)
    requires WellFormed(t) && Missing(t, SelectedColumns) == []
    requires forall r :: r in RawRows(t) ==> Convertible(p, r)
    requires rows == CleanAll(p, RawRows(t))
    ensures && Grade in t.cells && HomeOwnership in t.cells && VerificationStatus in t.cells
            && LoanStatus in t.cells && Purpose in t.cells && AddrState in t.cells
    ensures t.cells[Grade] == Project(rows, GradeOf)
    ensures t.cells[HomeOwnership] == Project(rows, HomeOwnershipOf)
    ensures t.cells[VerificationStatus] == Project(rows, VerificationStatusOf)
    ensures t.cells[LoanStatus] == Project(rows, LoanStatusOf)
    ensures t.cells[Purpose] == Project(rows, PurposeOf)
    ensures t.cells[AddrState] == Project(rows, AddrStateOf)
  {
    ProjectIndex(rows, GradeOf);
    ProjectIndex(rows, HomeOwnershipOf);
    ProjectIndex(rows, VerificationStatusOf);
    ProjectIndex(rows, LoanStatusOf);
    ProjectIndex(rows, PurposeOf);
    ProjectIndex(rows, AddrStateOf);
    SelectedPresent(t);
    var raws := RawRows(t);
    forall i | 0 <= i < |rows|
      ensures && t.cells[Grade][i] == Project(rows, GradeOf)[i]
              && t.cells[HomeOwnership][i] == Project(rows, HomeOwnershipOf)[i]
              && t.cells[VerificationStatus][i] == Project(rows, VerificationStatusOf)[i]
              && t.cells[LoanStatus][i] == Project(rows, LoanStatusOf)[i]
              && t.cells[Purpose][i] == Project(rows, PurposeOf)[i]
              && t.cells[AddrState][i] == Project(rows, AddrStateOf)[i]
    {
      RawFields(t, i);
      assert raws[i] in raws;
      assert rows[i] == CleanRow(p, raws[i]);
    }
  }

  /** The column-wise casts raise exactly when some raw row does not
      convert. */
  lemma CastErrors(p: NumberParsers, t: CsvTable)
    requires WellFormed(t) && Missing(t, SelectedColumns) == []
    ensures IntRate in t.cells && Term in t.cells
    ensures IntRateColumn(p, t.cells[IntRate]).Err? <==>
      exists i :: 0 <= i < |RawRows(t)| && !IntRateConverts(p, RawRows(t)[i].intRate)
    ensures TermColumn(t.cells[Term]).Err? <==>
      exists i :: 0 <= i < |RawRows(t)| && ExtractTermMonths(RawRows(t)[i].term).None?
  {
    SelectedPresent(t);
    var raws := RawRows(t);
    forall i | 0 <= i < |raws|
      ensures raws[i].intRate == t.cells[IntRate][i] && raws[i].term == t.cells[Term][i]
    {
      RawFields(t, i);
    }
  }

  /** The frame's columns after the seven assignments: the cast columns
      computed from the table's text, the others the table's text. */
  ghost predicate AssignedFrom(p: NumberParsers, t: CsvTable, cols: map<Col, Column>) {
    && (forall c :: c in cols <==> c in SelectedColumns || c in DerivedColumns)
    && Grade in t.cells && cols[Grade] == Text(t.cells[Grade])
    && HomeOwnership in t.cells && cols[HomeOwnership] == Text(t.cells[HomeOwnership])
    && VerificationStatus in t.cells && cols[VerificationStatus] == Text(t.cells[VerificationStatus])
    && LoanStatus in t.cells && cols[LoanStatus] == Text(t.cells[LoanStatus])
    && Purpose in t.cells && cols[Purpose] == Text(t.cells[Purpose])
    && AddrState in t.cells && cols[AddrState] == Text(t.cells[AddrState])
    && LoanAmnt in t.cells && cols[LoanAmnt] == Floats(NumericColumn(p, t.cells[LoanAmnt]))
    && AnnualInc in t.cells && cols[AnnualInc] == Floats(NumericColumn(p, t.cells[AnnualInc]))
    && Dti in t.cells && cols[Dti] == Floats(NumericColumn(p, t.cells[Dti]))
    && IntRate in t.cells && IntRateColumn(p, t.cells[IntRate]).Ok?
    && cols[IntRate] == Floats(IntRateColumn(p, t.cells[IntRate]).value)
    && IssueD in t.cells && cols[IssueD] == Dates(DateColumn(t.cells[IssueD]))
    && Term in t.cells && TermColumn(t.cells[Term]).Ok?
    && cols[TermMonths] == Ints(TermColumn(t.cells[Term]).value)
    && EmpLength in t.cells && cols[EmpYears] == Ints(EmpYearsColumn(t.cells[EmpLength]))
  }

  /** Each output column of the assigned frame is that column of the
      cleaned rows. */
  lemma AssembledColumn(p: NumberParsers, t: CsvTable, cols: map<Col, Column>, rows: seq<CleanLoan>, c: Col)
    requires WellFormed(t) && Missing(t, SelectedColumns) == []
    requires forall r :: r in RawRows(t) ==> Convertible(p, r)
    requires rows == CleanAll(p, RawRows(t))
    requires AssignedFrom(p, t, cols) && IsOutput(c)
    ensures c in cols && cols[c] == ColumnOf(rows, c)
  {
    OutputLabelsOnly(c);
    match c
    case LoanAmnt => NumericCleaned(p, t, rows);
    case IntRate => DerivedCleaned(p, t, rows);
    case Grade => PassedThrough(p, t, rows);
    case HomeOwnership => PassedThrough(p, t, rows);
    case AnnualInc => NumericCleaned(p, t, rows);
    case VerificationStatus => PassedThrough(p, t, rows);
    case IssueD => NumericCleaned(p, t, rows);
    case LoanStatus => PassedThrough(p, t, rows);
    case Purpose => PassedThrough(p, t, rows);
    case AddrState => PassedThrough(p, t, rows);
    case Dti => NumericCleaned(p, t, rows);
    case TermMonths => DerivedCleaned(p, t, rows);
    case EmpYears => DerivedCleaned(p, t, rows);
  }

  /** The columns the seven assignments produce from the selected text
      columns. */
  function AssignedColumns(p: NumberParsers, t: CsvTable, text: map<Col, Column>,
                           rates: seq<Option<real>>, months: seq<int>): map<Col, Column>
    requires AllSelected(t)
  {
    text[LoanAmnt := Floats(NumericColumn(p, t.cells[LoanAmnt]))]
        [AnnualInc := Floats(NumericColumn(p, t.cells[AnnualInc]))]
        [Dti := Floats(NumericColumn(p, t.cells[Dti]))]
        [IntRate := Floats(rates)]
        [IssueD := Dates(DateColumn(t.cells[IssueD]))]
        [TermMonths := Ints(months)]
        [EmpYears := Ints(EmpYearsColumn(t.cells[EmpLength]))]
  }

  lemma AssignedKeys(p: NumberParsers, t: CsvTable, text: map<Col, Column>,
                     rates: seq<Option<real>>, months: seq<int>)
    requires AllSelected(t)
    requires text == map c | c in SelectedColumns :: Text(t.cells[c])
    ensures forall c :: c in AssignedColumns(p, t, text, rates, months) <==>
                        c in SelectedColumns || c in DerivedColumns
  {
  }

  lemma AssignedText(p: NumberParsers, t: CsvTable, text: map<Col, Column>,
                     rates: seq<Option<real>>, months: seq<int>)
    requires AllSelected(t)
    requires text == map c | c in SelectedColumns :: Text(t.cells[c])
    ensures var cols := AssignedColumns(p, t, text, rates, months);
      && Grade in cols && cols[Grade] == Text(t.cells[Grade])
      && HomeOwnership in cols && cols[HomeOwnership] == Text(t.cells[HomeOwnership])
      && VerificationStatus in cols && cols[VerificationStatus] == Text(t.cells[VerificationStatus])
      && LoanStatus in cols && cols[LoanStatus] == Text(t.cells[LoanStatus])
      && Purpose in cols && cols[Purpose] == Text(t.cells[Purpose])
      && AddrState in cols && cols[AddrState] == Text(t.cells[AddrState])
  {
    assert text[Grade] == Text(t.cells[Grade]);
    assert text[HomeOwnership] == Text(t.cells[HomeOwnership]);
    assert text[VerificationStatus] == Text(t.cells[VerificationStatus]);
    assert text[LoanStatus] == Text(t.cells[LoanStatus]);
    assert text[Purpose] == Text(t.cells[Purpose]);
    assert text[AddrState] == Text(t.cells[AddrState]);
  }

  lemma AssignedCasts(p: NumberParsers, t: CsvTable, text: map<Col, Column>,
                      rates: seq<Option<real>>, months: seq<int>)
    requires AllSelected(t)
    ensures var cols := AssignedColumns(p, t, text, rates, months);
      && cols[LoanAmnt] == Floats(NumericColumn(p, t.cells[LoanAmnt]))
      && cols[AnnualInc] == Floats(NumericColumn(p, t.cells[AnnualInc]))
      && cols[Dti] == Floats(NumericColumn(p, t.cells[Dti]))
      && cols[IntRate] == Floats(rates)
      && cols[IssueD] == Dates(DateColumn(t.cells[IssueD]))
      && cols[TermMonths] == Ints(months)
      && cols[EmpYears] == Ints(EmpYearsColumn(t.cells[EmpLength]))
  {
  }

  /** The seven assignments of the job, applied to the selected text
      columns, give a frame assigned from the table. */
  lemma AssignedChain(p: NumberParsers, t: CsvTable, text: map<Col, Column>,
                      rates: seq<Option<real>>, months: seq<int>)
    requires AllSelected(t)
    requires text == map c | c in SelectedColumns :: Text(t.cells[c])
    requires IntRateColumn(p, t.cells[IntRate]) == Ok(rates)
    requires TermColumn(t.cells[Term]) == Ok(months)
    ensures AssignedFrom(p, t, AssignedColumns(p, t, text, rates, months))
  {
    AssignedKeys(p, t, text, rates, months);
    AssignedText(p, t, text, rates, months);
    AssignedCasts(p, t, text, rates, months);
  }

  /** The frame after the seven assignments and the drop holds the columns
      of the cleaned rows. */
  lemma AssembledColumns(p: NumberParsers, t: CsvTable, cols: map<Col, Column>, rows: seq<CleanLoan>)
    requires WellFormed(t) && Missing(t, SelectedColumns) == []
    requires forall r :: r in RawRows(t) ==> Convertible(p, r)
    requires rows == CleanAll(p, RawRows(t))
    requires AssignedFrom(p, t, cols)
    ensures (map c | c in cols && c !in ConsumedColumns :: cols[c]) == ColumnsOf(rows)
  {
    forall c | IsOutput(c) ensures c in cols && cols[c] == ColumnOf(rows, c) {
      AssembledColumn(p, t, cols, rows, c);
    }
    KeptColumns(cols, rows);
  }

  /** Dropping the consumed columns from a frame whose other columns are
      those of some rows leaves the frame of those rows. */
  lemma KeptColumns(cols: map<Col, Column>, rows: seq<CleanLoan>)
    requires forall c :: c in cols <==> c in SelectedColumns || c in DerivedColumns
    requires forall c | IsOutput(c) :: c in cols && cols[c] == ColumnOf(rows, c)
    ensures (map c | c in cols && c !in ConsumedColumns :: cols[c]) == ColumnsOf(rows)
  {
    var kept := map c | c in cols && c !in ConsumedColumns :: cols[c];
    KeptKeys();
    assert kept.Keys == ColumnsOf(rows).Keys;
  }

  /** The columns left after the drop are the output columns. */
  lemma KeptKeys()
    ensures forall c :: (c in SelectedColumns || c in DerivedColumns) && c !in ConsumedColumns <==>
      IsOutput(c)
  {
  }

  /** A failing int_rate column makes the transform fail with that error. */
  lemma IntRateFailure(p: NumberParsers, t: CsvTable)
    requires WellFormed(t) && Missing(t, SelectedColumns) == [] && AllSelected(t)
    requires IntRateColumn(p, t.cells[IntRate]).Err?
    ensures Transform(p, t) == Err(IntRateNotNumeric)
  {
    CastErrors(p, t);
  }

  /** A failing term column, after a good int_rate column, makes the
      transform fail with that error. */
  lemma TermFailure(p: NumberParsers, t: CsvTable)
    requires WellFormed(t) && Missing(t, SelectedColumns) == [] && AllSelected(t)
    requires IntRateColumn(p, t.cells[IntRate]).Ok? && TermColumn(t.cells[Term]).Err?
    ensures Transform(p, t) == Err(TermWithoutDigits)
  {
    CastErrors(p, t);
  }

  /** When both casts succeed every row converts and the transform keeps the
      cleaned rows that have a loan_status. */
  lemma CastsSucceed(p: NumberParsers, t: CsvTable)
    requires WellFormed(t) && Missing(t, SelectedColumns) == [] && AllSelected(t)
    requires IntRateColumn(p, t.cells[IntRate]).Ok? && TermColumn(t.cells[Term]).Ok?
    ensures forall r :: r in RawRows(t) ==> Convertible(p, r)
    ensures Transform(p, t) == Ok(DropNullStatus(CleanAll(p, RawRows(t))))
  {
    CastErrors(p, t);
  }

  /** pd.to_numeric with errors='coerce' over one text column, in place. */
  method ConvertNumeric(df: DataFrame, p: NumberParsers, name: Col)
    requires df.Valid() && name in df.columns && df.columns[name].Text?
    modifies df
    ensures df.Valid() && df.names == old(df.names) && df.height == old(df.height)
    ensures df.columns == old(df.columns)[name := Floats(NumericColumn(p, old(df.columns)[name].texts))]
  {
    df.Assign(name, Floats(NumericColumn(p, df.columns[name].texts)));
  }

  /** Cleaning int_rate in place: strip every '%' and cast to float; a
      present cell that does not parse raises and leaves the frame as it
      was. */
  method CleanIntRate(df: DataFrame, p: NumberParsers) returns (failure: Option<EtlError>)
    requires df.Valid() && IntRate in df.columns && df.columns[IntRate].Text?
    modifies df
    ensures var rates := IntRateColumn(p, old(df.columns)[IntRate].texts);
      && (failure.Some? <==> rates.Err?)
      && (failure.Some? ==> failure.value == IntRateNotNumeric && unchanged(df))
      && (failure.None? ==> && df.Valid() && df.names == old(df.names) && df.height == old(df.height)
                            && df.columns == old(df.columns)[IntRate := Floats(rates.value)])
  {
    var rates := IntRateColumn(p, df.columns[IntRate].texts);
    if rates.Err? {
      return Some(rates.error);
    }
    df.Assign(IntRate, Floats(rates.value));
    failure := None;
  }

  /** Parsing issue_d in place with the "%b-%Y" format and coercion. */
  method ParseIssueDate(df: DataFrame)
    requires df.Valid() && IssueD in df.columns && df.columns[IssueD].Text?
    modifies df
    ensures df.Valid() && df.names == old(df.names) && df.height == old(df.height)
    ensures df.columns == old(df.columns)[IssueD := Dates(DateColumn(old(df.columns)[IssueD].texts))]
  {
    df.Assign(IssueD, Dates(DateColumn(df.columns[IssueD].texts)));
  }

  /** Appending term_months, the first digit run of each term cast to int;
      a missing term or one without digits raises and leaves the frame as
      it was. */
  method ExtractTerm(df: DataFrame) returns (failure: Option<EtlError>)
    requires df.Valid() && Term in df.columns && df.columns[Term].Text? && TermMonths !in df.columns
    modifies df
    ensures var months := TermColumn(old(df.columns)[Term].texts);
      && (failure.Some? <==> months.Err?)
      && (failure.Some? ==> failure.value == TermWithoutDigits && unchanged(df))
      && (failure.None? ==> && df.Valid() && df.names == old(df.names) + [TermMonths]
                            && df.height == old(df.height)
                            && df.columns == old(df.columns)[TermMonths := Ints(months.value)])
  {
    var months := TermColumn(df.columns[Term].texts);
    if months.Err? {
      return Some(months.error);
    }
    df.Assign(TermMonths, Ints(months.value));
    failure := None;
  }

  /** Appending emp_years, clean_emp_length applied to every emp_length. */
  method AddEmpYears(df: DataFrame)
    requires df.Valid() && EmpLength in df.columns && df.columns[EmpLength].Text?
    requires EmpYears !in df.columns
    modifies df
    ensures df.Valid() && df.names == old(df.names) + [EmpYears] && df.height == old(df.height)
    ensures df.columns == old(df.columns)[EmpYears := Ints(EmpYearsColumn(old(df.columns)[EmpLength].texts))]
  {
    df.Assign(EmpYears, Ints(EmpYearsColumn(df.columns[EmpLength].texts)));
  }

  /** The cleaning step of the job on the selected frame: the numeric
      columns, int_rate and issue_d are converted in place and term_months and
      emp_years are appended, in the job's order; the int_rate cast raises
      before the term cast is tried. */
  method CastColumns(df: DataFrame, p: NumberParsers, ghost t: CsvTable) returns (failure: Option<EtlError>)
    requires WellFormed(t) && AllSelected(t)
    requires df.Valid() && df.names == SelectedColumns && df.height == t.height
    requires df.columns == map c | c in SelectedColumns :: Text(t.cells[c])
    modifies df
    ensures failure == if IntRateColumn(p, t.cells[IntRate]).Err? then Some(IntRateNotNumeric)
                       else if TermColumn(t.cells[Term]).Err? then Some(TermWithoutDigits)
                       else None
    ensures failure.None? ==>
      && df.Valid() && df.names == SelectedColumns + DerivedColumns && df.height == t.height
      && df.columns == AssignedColumns(p, t, old(df.columns), IntRateColumn(p, t.cells[IntRate]).value,
                                       TermColumn(t.cells[Term]).value)
  {
    DerivedNotSelected();
    assert df.columns[LoanAmnt] == Text(t.cells[LoanAmnt]);
    ConvertNumeric(df, p, LoanAmnt);
    assert df.columns[AnnualInc] == Text(t.cells[AnnualInc]);
    ConvertNumeric(df, p, AnnualInc);
    assert df.columns[Dti] == Text(t.cells[Dti]);
    ConvertNumeric(df, p, Dti);
    assert df.columns[IntRate] == Text(t.cells[IntRate]);
    failure := CleanIntRate(df, p);
    if failure.Some? {
      return;
    }
    assert df.columns[IssueD] == Text(t.cells[IssueD]);
    ParseIssueDate(df);
    assert df.columns[Term] == Text(t.cells[Term]);
    failure := ExtractTerm(df);
    if failure.Some? {
      return;
    }
    assert df.columns[EmpLength] == Text(t.cells[EmpLength]);
    AddEmpYears(df);
    AppendTwo(SelectedColumns, TermMonths, EmpYears);
  }

  lemma DerivedNotSelected()
    ensures TermMonths !in SelectedColumns && EmpYears !in SelectedColumns
  {
  }

  lemma AppendTwo<T>(s: seq<T>, a: T, b: T)
    ensures s + [a] + [b] == s + [a, b]
  {
  }

  /** The pandas job's transform: select the thirteen columns, convert the
      numeric ones, clean int_rate, parse issue_d, extract term_months, map
      emp_length to emp_years, drop term and emp_length, and drop the rows
      without a loan_status. The frame it returns holds, column for column,
      the rows the row-level rules give; it raises exactly when they do. */
  method RunEtl(p: NumberParsers, t: CsvTable) returns (r: Result<DataFrame, EtlError>)
    requires WellFormed(t)
    ensures r.Ok? <==> Transform(p, t).Ok?
    ensures r.Err? ==> r.error == Transform(p, t).error
    ensures r.Ok? ==> && fresh(r.value) && r.value.Valid()
                      && r.value.names == OutputColumns
                      && r.value.height == |Transform(p, t).value|
                      && r.value.columns == ColumnsOf(Transform(p, t).value)
  {
    SchemasDistinct();
    var selected := SelectColumns(t, SelectedColumns);
    if selected.Err? {
      return Err(selected.error);
    }
    var df := selected.value;
    SelectedPresent(t);
    ghost var text := df.columns;
    var failure := CastColumns(df, p, t);
    if failure.Some? {
      if IntRateColumn(p, t.cells[IntRate]).Err? {
        IntRateFailure(p, t);
      } else {
        TermFailure(p, t);
      }
      return Err(failure.value);
    }
    ghost var rates := IntRateColumn(p, t.cells[IntRate]).value;
    ghost var months := TermColumn(t.cells[Term]).value;
    CastsSucceed(p, t);
    ghost var rows := CleanAll(p, RawRows(t));
    AssignedChain(p, t, text, rates, months);
    AssembledColumns(p, t, df.columns, rows);
    OutputSchema();

    var dropped := df.Drop(ConsumedColumns);
    assert dropped.columns == ColumnsOf(rows);
    StatusFilter(rows);
    var final := dropped.DropNa(LoanStatus);
    r := Ok(final);
  }
}
