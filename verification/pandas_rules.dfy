/** The cleaning rules of the pandas job, one cell at a time and one row at
    a time: the specification the column-wise frame operations are proved
    against. */
module PandasRules {
  import opened Wrappers
  import opened Text
  import opened Loans

  /** The two number readers the job relies on, given as parameters:
      toNumeric reads one cell the way a coercing numeric conversion does,
      asFloat the way a cast of text to float does. None means the text is
      not a number (the first yields a null, the second raises). */
  datatype NumberParsers = NumberParsers(
    toNumeric: string -> Option<real>,
    asFloat: string -> Option<real>)

  // ---------------------------------------------------------------- numbers

  /** loan_amnt, annual_inc, dti: a failed parse becomes null. */
  function ToNumeric(p: NumberParsers, x: Option<string>): Option<real> {
    match x
    case None => None
    case Some(s) => p.toNumeric(s)
  }

  /** int_rate text with every '%' removed. */
  function StripPercent(s: string): string {
    RemoveAll(s, "%")
  }

  /** Whether an int_rate cell survives the float cast: a missing cell stays
      missing, text must read as a number once its '%' signs are gone. */
  predicate IntRateConverts(p: NumberParsers, x: Option<string>) {
    x.None? || p.asFloat(StripPercent(x.value)).Some?
  }

  function IntRateValue(p: NumberParsers, x: Option<string>): Option<real>
    requires IntRateConverts(p, x)
  {
    match x
    case None => None
    case Some(s) => p.asFloat(StripPercent(s))
  }

  /** '%' signs anywhere in the text are ignored, so "12.5%" and "12.5"
      convert alike; no '%' survives the stripping. */
  lemma PercentSignsIgnored(a: string, b: string)
    ensures StripPercent(a + "%" + b) == StripPercent(a + b)
    ensures '%' !in StripPercent(a + b)
  {
    RemoveCharSplits(a + "%", b, '%');
    RemoveCharSplits(a, "%", '%');
    RemoveCharSplits(a, b, '%');
    assert RemoveAll("%", "%") == [];
    RemoveCharGone(a + b, '%');
  }

  lemma PercentFixture(p: NumberParsers)
    ensures StripPercent("12.5%") == StripPercent("12.5") == "12.5"
    ensures IntRateConverts(p, Some("12.5%")) <==> IntRateConverts(p, Some("12.5"))
    ensures IntRateConverts(p, Some("12.5")) ==>
      IntRateValue(p, Some("12.5%")) == IntRateValue(p, Some("12.5")) == p.asFloat("12.5")
  {
    PercentSignsIgnored("12.5", "");
    assert "12.5" + "%" + "" == "12.5%";
    assert "12.5" + "" == "12.5";
    RemoveAllAbsent("12.5", "%");
  }

  // ------------------------------------------------------------------ dates

  /** The month abbreviations, lower case; the month part of a date matches
      one of them regardless of case. */
  const MonthAbbreviations: seq<string> :=
    ["jan", "feb", "mar", "apr", "may", "jun", "jul", "aug", "sep", "oct", "nov", "dec"]

  function LowerAscii(c: char): char {
    if 'A' <= c <= 'Z' then (c as int + 32) as char else c
  }

  function Lower(s: string): (r: string)
    ensures |r| == |s|
  {
    seq(|s|, i requires 0 <= i < |s| => LowerAscii(s[i]))
  }

  /** The month number (1 to 12) whose abbreviation is t, searching from
      index i on. */
  function MonthFrom(t: string, i: nat): (m: Option<int>)
    requires i <= 12
    ensures m.Some? ==> i < m.value <= 12 && t == MonthAbbreviations[m.value - 1]
    ensures m.None? ==> forall j :: i <= j < 12 ==> t != MonthAbbreviations[j]
    decreases 12 - i
  {
    if i == 12 then None
    else if MonthAbbreviations[i] == t then Some(i + 1)
    else MonthFrom(t, i + 1)
  }

  /** A "Mon-YYYY" date: a three-letter month abbreviation in any case, a
      dash and exactly four ASCII digits naming a year from 1 on; anything
      else is no date. */
  function ParseMonthYear(s: string): (d: Option<MonthYear>)
    ensures d.Some? <==>
      && |s| == 8 && s[3] == '-' && AllDigits(s[4..]) && DecimalValue(s[4..]) >= 1
      && Lower(s[..3]) in MonthAbbreviations
    ensures d.Some? ==>
      && d.value.year == DecimalValue(s[4..])
      && 1 <= d.value.month <= 12 && Lower(s[..3]) == MonthAbbreviations[d.value.month - 1]
  {
    if |s| == 8 && s[3] == '-' && AllDigits(s[4..]) && DecimalValue(s[4..]) >= 1 then
      match MonthFrom(Lower(s[..3]), 0)
      case None => None
      case Some(m) => Some(MonthYear(DecimalValue(s[4..]), m))
    else None
  }

  /** issue_d: a cell that is not a "Mon-YYYY" date becomes null. */
  function ToMonthYear(x: Option<string>): Option<MonthYear> {
    match x
    case None => None
    case Some(s) => ParseMonthYear(s)
  }

  /** The month names the sample data writes. */
  const FixtureMonths: seq<string> :=
    ["Jan", "Feb", "Mar", "Apr", "May", "Jun", "Jul", "Aug", "Sep", "Oct", "Nov", "Dec"]

  lemma LowerThree(a: string)
    requires |a| == 3
    ensures Lower(a) == [LowerAscii(a[0]), LowerAscii(a[1]), LowerAscii(a[2])]
  {
  }

  lemma FixtureMonthsFold()
    ensures forall m :: 0 <= m < 12 ==> |FixtureMonths[m]| == 3 && Lower(FixtureMonths[m]) == MonthAbbreviations[m]
  {
    forall m | 0 <= m < 12
      ensures |FixtureMonths[m]| == 3 && Lower(FixtureMonths[m]) == MonthAbbreviations[m]
    {
      LowerThree(FixtureMonths[m]);
    }
  }

  lemma AbbreviationsDistinct()
    ensures Distinct(MonthAbbreviations)
  {
  }

  lemma FourDigits(y: nat)
    requires 1000 <= y <= 9999
    ensures |Decimal(y)| == 4
  {
    var a, b, c := y / 10, y / 10 / 10, y / 10 / 10 / 10;
    assert 1 <= c <= 9 && 10 <= b <= 99 && 100 <= a <= 999;
    assert |Decimal(c)| == 1;
    assert |Decimal(b)| == |Decimal(c)| + 1;
    assert |Decimal(a)| == |Decimal(b)| + 1;
  }

  /** Every sample date parses to its month and year; the month part is
      matched without regard to case. */
  lemma {:induction false} IssueDateFixture(m: nat, y: nat)
    requires 1 <= m <= 12 && 1000 <= y <= 9999
    ensures ParseMonthYear(FixtureMonths[m - 1] + "-" + Decimal(y)) == Some(MonthYear(y, m))
    ensures ParseMonthYear(MonthAbbreviations[m - 1] + "-" + Decimal(y)) == Some(MonthYear(y, m))
  {
    FixtureMonthsFold();
    FourDigits(y);
    DecimalRoundTrip(y);
    ParseOfParts(FixtureMonths[m - 1], Decimal(y));
    ParseOfParts(MonthAbbreviations[m - 1], Decimal(y));
    assert Lower(MonthAbbreviations[m - 1]) == MonthAbbreviations[m - 1];
    AbbreviationsDistinct();
    var r := MonthFrom(MonthAbbreviations[m - 1], 0);
    assert r.Some? && r.value == m;
  }

  lemma ParseOfParts(a: string, t: string)
    requires |a| == 3 && |t| == 4
    ensures var s := a + "-" + t; s[..3] == a && s[3] == '-' && s[4..] == t && |s| == 8
  {
  }

  // ------------------------------------------------------------------- term

  /** term_months: the integer value of the first run of digits; None when
      there is no run (or no term), where the cast to int raises. */
  function ExtractTermMonths(x: Option<string>): (m: Option<nat>)
    ensures m.Some? <==> x.Some? && exists i :: 0 <= i < |x.value| && IsDigit(x.value[i])
  {
    match x
    case None => None
    case Some(s) =>
      match FirstDigitRun(s)
      case None => None
      case Some(d) => Some(DecimalValue(d))
  }

  /** " <n> months" gives n. */
  lemma {:induction false} TermOfMonths(n: nat)
    ensures ExtractTermMonths(Some(" " + Decimal(n) + " months")) == Some(n)
  {
    var d := Decimal(n);
    assert " " + d + " months" == " " + (d + " months");
    FirstDigitRunSkips(" ", d + " months");
    FirstDigitRunOfPrefix(d, " months");
    DecimalRoundTrip(n);
  }

  /** Any text around the first maximal digit run: the run is read, and
      whatever follows it is ignored. */
  lemma TermFirstRun(u: string, d: string, t: string)
    requires forall i :: 0 <= i < |u| ==> !IsDigit(u[i])
    requires |d| > 0 && AllDigits(d) && (t == [] || !IsDigit(t[0]))
    ensures ExtractTermMonths(Some(u + d + t)) == Some(DecimalValue(d))
  {
    FirstDigitRunAround(u, d, t);
  }

  /** The two terms of the sample data. */
  const TermSamples: seq<string> := [" 36 months", " 60 months"]

  lemma TermSamplesText()
    ensures TermSamples[0] == " " + Decimal(36) + " months"
    ensures TermSamples[1] == " " + Decimal(60) + " months"
  {
    assert Decimal(3) == "3" && Decimal(36) == "36";
    assert Decimal(6) == "6" && Decimal(60) == "60";
  }

  lemma TermFixture()
    ensures ExtractTermMonths(Some(TermSamples[0])) == Some(36)
    ensures ExtractTermMonths(Some(TermSamples[1])) == Some(60)
  {
    TermSamplesText();
    TermOfMonths(36);
    TermOfMonths(60);
  }

  // ------------------------------------------------------- employment length

  /** emp_years: missing gives 0, "< 1 year" gives 0, "10+ years" gives 10,
      and otherwise the value of the first run of digits, 0 when there is
      none. */
  function CleanEmpLength(x: Option<string>): (n: nat)
    ensures x.None? || FirstDigitRun(x.value).None? ==> n == 0
  {
    match x
    case None => 0
    case Some(s) =>
      if s == "< 1 year" then 0
      else if s == "10+ years" then assert IsDigit(s[0]); 10
      else match FirstDigitRun(s)
        case Some(d) => DecimalValue(d)
        case None => 0
  }

  /** The fixed cases are tried before the digit search: "< 1 year" holds the
      digit run "1" yet gives 0. */
  lemma EmpLengthFixedCases()
    ensures CleanEmpLength(None) == 0
    ensures CleanEmpLength(Some("< 1 year")) == 0 && FirstDigitRun("< 1 year") == Some("1")
    ensures CleanEmpLength(Some("10+ years")) == 10
  {
    LessThanOneRun();
  }

  lemma LessThanOneRun()
    ensures FirstDigitRun("< 1 year") == Some("1")
  {
    FirstDigitRunAround("< ", "1", " year");
    assert "< " + "1" + " year" == "< 1 year";
  }

  /** "<n> year" and "<n> years" give n. */
  lemma {:induction false} EmpLengthOfYears(n: nat, unit: string)
    requires unit == " year" || unit == " years"
    ensures CleanEmpLength(Some(Decimal(n) + unit)) == n
  {
    var d := Decimal(n);
    NotFixedCase(n, unit);
    FirstDigitRunOfPrefix(d, unit);
    DecimalRoundTrip(n);
  }

  /** Outside the two fixed strings the value is that of the first maximal
      digit run, wherever it stands in the text. */
  lemma EmpLengthFirstRun(u: string, d: string, t: string)
    requires forall i :: 0 <= i < |u| ==> !IsDigit(u[i])
    requires |d| > 0 && AllDigits(d) && (t == [] || !IsDigit(t[0]))
    requires u + d + t != "< 1 year" && u + d + t != "10+ years"
    ensures CleanEmpLength(Some(u + d + t)) == DecimalValue(d)
  {
    FirstDigitRunAround(u, d, t);
  }

  /** "<n> year" and "<n> years" are neither of the two fixed cases. */
  lemma NotFixedCase(n: nat, unit: string)
    requires unit == " year" || unit == " years"
    ensures Decimal(n) + unit != "< 1 year" && Decimal(n) + unit != "10+ years"
  {
    var d := Decimal(n);
    var s := d + unit;
    assert s != "< 1 year" by {
      assert s[0] == d[0];
    }
    assert s != "10+ years" by {
      if |s| == 9 {
        assert |d| == 4 || |d| == 3;
        assert s[2] == d[2];
      }
    }
  }

  /** Text without digits, such as "unknown", gives 0. */
  lemma EmpLengthWithoutDigits(s: string)
    requires forall i :: 0 <= i < |s| ==> !IsDigit(s[i])
    ensures CleanEmpLength(Some(s)) == 0
  {
    if |s| > 2 {
      assert !IsDigit(s[0]) && !IsDigit(s[2]);
    }
  }

  /** Values above ten pass through: "15 years" gives 15. */
  lemma EmpLengthBeyondTen()
    ensures CleanEmpLength(Some("15 years")) == 15
  {
    var d := Decimal(15);
    assert Decimal(1) == "1";
    assert d == Decimal(1) + "5";
    assert d + " years" == "15 years";
    EmpLengthOfYears(15, " years");
  }

  /** The employment lengths of the sample data. */
  const EmpLengthSamples: seq<string> :=
    ["< 1 year", "1 year", "2 years", "3 years", "4 years", "5 years",
     "6 years", "7 years", "8 years", "9 years", "10+ years"]

  /** Between the two fixed cases the samples are "<k> year(s)". */
  lemma EmpLengthSampleText(k: nat)
    requires 1 <= k <= 9
    ensures EmpLengthSamples[k] == Decimal(k) + (if k == 1 then " year" else " years")
  {
    assert Decimal(k) == [(k + '0' as int) as char];
    if k == 1 { assert EmpLengthSamples[1] == "1" + " year"; }
    else if k == 2 { assert EmpLengthSamples[2] == "2" + " years"; }
    else if k == 3 { assert EmpLengthSamples[3] == "3" + " years"; }
    else if k == 4 { assert EmpLengthSamples[4] == "4" + " years"; }
    else if k == 5 { assert EmpLengthSamples[5] == "5" + " years"; }
    else if k == 6 { assert EmpLengthSamples[6] == "6" + " years"; }
    else if k == 7 { assert EmpLengthSamples[7] == "7" + " years"; }
    else if k == 8 { assert EmpLengthSamples[8] == "8" + " years"; }
    else { assert EmpLengthSamples[9] == "9" + " years"; }
  }

  /** The k-th sample gives k years, and the last one 10. */
  lemma EmpLengthSamplesClean()
    ensures forall k :: 0 <= k < |EmpLengthSamples| ==> CleanEmpLength(Some(EmpLengthSamples[k])) == k
  {
    EmpLengthFixedCases();
    forall k | 1 <= k <= 9 ensures CleanEmpLength(Some(EmpLengthSamples[k])) == k {
      EmpLengthSampleText(k);
      EmpLengthOfYears(k, if k == 1 then " year" else " years");
    }
  }

  // -------------------------------------------------------------------- rows

  /** Whether a row survives the two casts that raise. */
  predicate Convertible(p: NumberParsers, r: RawLoan) {
    IntRateConverts(p, r.intRate) && ExtractTermMonths(r.term).Some?
  }

  /** The cleaned form of one row: each output field computed from its own
      column alone. */
  function CleanRow(p: NumberParsers, r: RawLoan): CleanLoan
    requires Convertible(p, r)
  {
    CleanLoan(
      ToNumeric(p, r.loanAmnt), IntRateValue(p, r.intRate), r.grade, r.homeOwnership,
      ToNumeric(p, r.annualInc), r.verificationStatus, ToMonthYear(r.issueD),
      r.loanStatus, r.purpose, r.addrState, ToNumeric(p, r.dti),
      ExtractTermMonths(r.term).value, CleanEmpLength(r.empLength))
  }

  /** Each output field is a function of its own source column only. */
  lemma FieldsIndependent(p: NumberParsers, r1: RawLoan, r2: RawLoan)
    requires Convertible(p, r1) && Convertible(p, r2)
    ensures var c1, c2 := CleanRow(p, r1), CleanRow(p, r2);
      && (r1.loanAmnt == r2.loanAmnt ==> c1.loanAmnt == c2.loanAmnt)
      && (r1.intRate == r2.intRate ==> c1.intRate == c2.intRate)
      && (r1.annualInc == r2.annualInc ==> c1.annualInc == c2.annualInc)
      && (r1.dti == r2.dti ==> c1.dti == c2.dti)
      && (r1.issueD == r2.issueD ==> c1.issueD == c2.issueD)
      && (r1.term == r2.term ==> c1.termMonths == c2.termMonths)
      && (r1.empLength == r2.empLength ==> c1.empYears == c2.empYears)
      && c1.grade == r1.grade && c1.homeOwnership == r1.homeOwnership
      && c1.verificationStatus == r1.verificationStatus && c1.loanStatus == r1.loanStatus
      && c1.purpose == r1.purpose && c1.addrState == r1.addrState
  {
  }

  function CleanAll(p: NumberParsers, raws: seq<RawLoan>): (rows: seq<CleanLoan>)
    requires forall r :: r in raws ==> Convertible(p, r)
    ensures |rows| == |raws|
  {
    seq(|raws|, i requires 0 <= i < |raws| => CleanRow(p, raws[i]))
  }

  /** The rows whose loan_status is present, in their order. */
  function DropNullStatus(rows: seq<CleanLoan>): (r: seq<CleanLoan>)
    ensures |r| <= |rows|
    ensures forall x :: x in r ==> x.loanStatus.Some? && x in rows
  {
    if rows == [] then []
    else if rows[0].loanStatus.None? then DropNullStatus(rows[1..])
    else [rows[0]] + DropNullStatus(rows[1..])
  }

  /** The whole row transform. The int_rate cast runs before the term cast
      and both run over every row before any row is filtered. */
  function CleanRows(p: NumberParsers, raws: seq<RawLoan>): (res: Result<seq<CleanLoan>, EtlError>)
    ensures res.Ok? <==> forall i :: 0 <= i < |raws| ==> Convertible(p, raws[i])
    ensures res.Ok? ==> |res.value| <= |raws| && forall c :: c in res.value ==> c.loanStatus.Some?
    ensures res.Err? ==> res.error == IntRateNotNumeric || res.error == TermWithoutDigits
  {
    if exists i :: 0 <= i < |raws| && !IntRateConverts(p, raws[i].intRate) then
      Err(IntRateNotNumeric)
    else if exists i :: 0 <= i < |raws| && ExtractTermMonths(raws[i].term).None? then
      Err(TermWithoutDigits)
    else
      Ok(DropNullStatus(CleanAll(p, raws)))
  }

  /** The transform from the file's frame: the thirteen columns are selected
      first, and a missing one aborts the run. */
  function Transform(p: NumberParsers, t: CsvTable): (res: Result<seq<CleanLoan>, EtlError>)
    ensures res.Err? && res.error.MissingColumns? <==> Missing(t, SelectedColumns) != []
    ensures res.Ok? <==> Missing(t, SelectedColumns) == [] && forall x :: x in RawRows(t) ==> Convertible(p, x)
    ensures res.Ok? ==> |res.value| <= t.height
  {
    var missing := Missing(t, SelectedColumns);
    if missing != [] then Err(MissingColumns(missing)) else CleanRows(p, RawRows(t))
  }

  lemma WithStatusConvertible(p: NumberParsers, raws: seq<RawLoan>)
    requires forall r :: r in raws ==> Convertible(p, r)
    ensures forall r :: r in WithStatus(raws) ==> Convertible(p, r)
  {
  }

  /** Filtering the cleaned rows is cleaning the rows with a status. */
  lemma {:induction false} DropNullStatusOfClean(p: NumberParsers, raws: seq<RawLoan>)
    requires forall r :: r in raws ==> Convertible(p, r)
    ensures forall r :: r in WithStatus(raws) ==> Convertible(p, r)
    ensures DropNullStatus(CleanAll(p, raws)) == CleanAll(p, WithStatus(raws))
  {
    WithStatusConvertible(p, raws);
    if raws != [] {
      var rest := raws[1..];
      assert forall r :: r in rest ==> r in raws;
      DropNullStatusOfClean(p, rest);
      var c := CleanAll(p, raws);
      assert c[0] == CleanRow(p, raws[0]) && c[1..] == CleanAll(p, rest);
      if raws[0].loanStatus.Some? {
        CleanAllCons(p, raws[0], WithStatus(rest));
      }
    }
  }

  lemma CleanAllCons(p: NumberParsers, r: RawLoan, raws: seq<RawLoan>)
    requires Convertible(p, r) && forall x :: x in raws ==> Convertible(p, x)
    ensures forall x :: x in [r] + raws ==> Convertible(p, x)
    ensures CleanAll(p, [r] + raws) == [CleanRow(p, r)] + CleanAll(p, raws)
  {
    var s := [r] + raws;
    var a, b := CleanAll(p, s), [CleanRow(p, r)] + CleanAll(p, raws);
    forall i | 0 <= i < |a| ensures a[i] == b[i] {
      if i > 0 {
        assert s[i] == raws[i - 1];
      }
    }
  }

  /** The filtering law: a successful run yields exactly the cleaned rows whose
      loan_status is present, in input order; its length is the input length
      less the rows with a null status. */
  lemma FilterLaw(p: NumberParsers, raws: seq<RawLoan>)
    requires CleanRows(p, raws).Ok?
    ensures forall r :: r in WithStatus(raws) ==> Convertible(p, r)
    ensures CleanRows(p, raws).value == CleanAll(p, WithStatus(raws))
    ensures |CleanRows(p, raws).value| == |raws| - NullStatusCount(raws)
    ensures forall i :: 0 <= i < |raws| && raws[i].loanStatus.Some? ==>
      CleanRow(p, raws[i]) in CleanRows(p, raws).value
  {
    DropNullStatusOfClean(p, raws);
    forall i | 0 <= i < |raws| && raws[i].loanStatus.Some?
      ensures CleanRow(p, raws[i]) in CleanRows(p, raws).value
    {
      KeptRowPresent(p, raws, i);
    }
  }

  lemma KeptRowPresent(p: NumberParsers, raws: seq<RawLoan>, i: nat)
    requires forall r :: r in raws ==> Convertible(p, r)
    requires i < |raws| && raws[i].loanStatus.Some?
    ensures CleanRow(p, raws[i]) in DropNullStatus(CleanAll(p, raws))
  {
    var c := CleanAll(p, raws);
    assert c[i] == CleanRow(p, raws[i]);
    StatusKept(c, i);
  }

  /** The filter keeps every row that has a loan_status. */
  lemma {:induction false} StatusKept(rows: seq<CleanLoan>, i: nat)
    requires i < |rows| && rows[i].loanStatus.Some?
    ensures rows[i] in DropNullStatus(rows)
  {
    if i > 0 {
      StatusKept(rows[1..], i - 1);
      assert rows[1..][i - 1] == rows[i];
    }
  }

  /** The casts run before the filter: a bad term in a row whose loan_status
      is null still aborts the run. */
  lemma DroppedRowStillCast(p: NumberParsers, raws: seq<RawLoan>, i: nat)
    requires forall j :: 0 <= j < |raws| ==> IntRateConverts(p, raws[j].intRate)
    requires i < |raws| && raws[i].loanStatus.None? && ExtractTermMonths(raws[i].term).None?
    ensures CleanRows(p, raws) == Err(TermWithoutDigits)
  {
  }

  /** A numeric cell that does not parse leaves the row in the output with a
      null in that field. */
  lemma NumericFailureKeepsRow(p: NumberParsers, raws: seq<RawLoan>, i: nat)
    requires CleanRows(p, raws).Ok?
    requires i < |raws| && raws[i].loanStatus.Some?
    requires raws[i].loanAmnt.Some? && p.toNumeric(raws[i].loanAmnt.value).None?
    ensures exists c :: c in CleanRows(p, raws).value && c.loanAmnt.None? && c.loanStatus == raws[i].loanStatus
  {
    FilterLaw(p, raws);
    assert CleanRow(p, raws[i]) in CleanRows(p, raws).value;
  }
}
