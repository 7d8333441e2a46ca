/** The Spark variant of the job: the same thirteen columns, cleaned by one
    chain of column expressions. With ANSI mode off, every cast that fails
    yields a null rather than raising, and the employment length fallback
    removes the words " year"/" years" and casts what is left instead of
    searching for digits. */
module SparkEtl {
  import opened Wrappers
  import opened Text
  import opened Loans
  import opened PandasRules

  /** The engine's conversions, given as parameters: text to integer, text
      to double, and text in the "MMM-yyyy" pattern to a date. None is a
      null result. */
  datatype SparkCasts = SparkCasts(
    castInt: string -> Option<int>,
    castDouble: string -> Option<real>,
    toDate: string -> Option<MonthYear>)

  /** One row of the Spark output, fields in the order of the output
      columns; the two integer columns may be null here. */
  datatype SparkLoan = SparkLoan(
    loanAmnt: Option<real>,
    intRate: Option<real>,
    grade: Option<string>,
    homeOwnership: Option<string>,
    annualInc: Option<real>,
    verificationStatus: Option<string>,
    issueD: Option<MonthYear>,
    loanStatus: Option<string>,
    purpose: Option<string>,
    addrState: Option<string>,
    dti: Option<real>,
    termMonths: Option<int>,
    empYears: Option<int>)

  // ------------------------------------------------------------ the casts

  /** A cast of a column: null stays null. */
  function CastDouble(c: SparkCasts, x: Option<string>): Option<real> {
    match x
    case None => None
    case Some(s) => c.castDouble(s)
  }

  /** int_rate with every '%' removed, cast to double. */
  function SparkIntRate(c: SparkCasts, x: Option<string>): (r: Option<real>)
    ensures x.None? ==> r.None?
    ensures x.Some? && '%' !in x.value ==> r == c.castDouble(x.value)
  {
    match x
    case None => None
    case Some(s) =>
      assert '%' !in s ==> RemoveAll(s, "%") == s by {
        if '%' !in s { RemoveAllAbsent(s, "%"); }
      }
      c.castDouble(RemoveAll(s, "%"))
  }

  function SparkIssueDate(c: SparkCasts, x: Option<string>): Option<MonthYear> {
    match x
    case None => None
    case Some(s) => c.toDate(s)
  }

  /** term with every " months" removed, cast to integer. */
  function SparkTermMonths(c: SparkCasts, x: Option<string>): (r: Option<int>)
    ensures x.None? ==> r.None?
    ensures x.Some? && ' ' !in x.value ==> r == c.castInt(x.value)
  {
    match x
    case None => None
    case Some(s) =>
      assert ' ' !in s ==> RemoveAll(s, " months") == s by {
        if ' ' !in s { RemoveAllAbsent(s, " months"); }
      }
      c.castInt(RemoveAll(s, " months"))
  }

  /** The regular expression " years?" replaced by nothing: scanning left
      to right, each " year" is removed together with an "s" right after
      it. */
  function RemoveYearWords(s: string): (r: string)
    ensures |r| <= |s|
    ensures forall ch :: ch in r ==> ch in s
  {
    if |s| >= 5 && s[..5] == " year" then
      if |s| >= 6 && s[5] == 's' then RemoveYearWords(s[6..]) else RemoveYearWords(s[5..])
    else if s == [] then []
    else [s[0]] + RemoveYearWords(s[1..])
  }

  /** emp_years: the first matching branch of the chain wins. */
  function SparkEmpYears(c: SparkCasts, x: Option<string>): (r: Option<int>)
    ensures x.None? ==> r == Some(0)
    ensures r.None? ==> x.Some? && x.value != "< 1 year" && x.value != "10+ years"
  {
    match x
    case None => Some(0)
    case Some(s) =>
      if s == "< 1 year" then Some(0)
      else if s == "10+ years" then Some(10)
      else c.castInt(RemoveYearWords(s))
  }

  /** The chain in the order of its branches: a null first, then the two
      literals, and only then the cast. */
  lemma SparkEmpYearsChain(c: SparkCasts, s: string)
    ensures SparkEmpYears(c, None) == Some(0)
    ensures SparkEmpYears(c, Some("< 1 year")) == Some(0)
    ensures SparkEmpYears(c, Some("10+ years")) == Some(10)
    ensures s != "< 1 year" && s != "10+ years" ==>
      SparkEmpYears(c, Some(s)) == c.castInt(RemoveYearWords(s))
  {
    assert |"< 1 year"| != |"10+ years"|;
  }

  /** "< 1 year" does not reach the cast although removing " year" would
      leave "< 1" there. */
  lemma LessThanOneYearShortcut()
    ensures RemoveYearWords("< 1 year") == "< 1"
  {
    var one := "1 year";
    OneYearRemoved();
    assert one[..4][0] == '1';
    YearWordsAfter(" ", one);
    YearWordsAfter("<", " " + one);
    assert "<" + (" " + one) == "< 1 year";
    assert "<" + (" " + "1") == "< 1";
  }

  lemma OneYearRemoved()
    ensures RemoveYearWords("1 year") == "1"
  {
    var unit := " year";
    assert RemoveYearWords(unit) == [] by {
      assert unit[..5] == unit && unit[5..] == [];
    }
    YearWordsAfter("1", unit);
    assert "1" + unit == "1 year";
  }

  /** Text before which nothing can start " year" is copied through. */
  lemma YearWordsAfter(a: string, t: string)
    requires |a| == 1 && (a[0] != ' ' || |t| < 4 || t[..4] != "year")
    ensures RemoveYearWords(a + t) == a + RemoveYearWords(t)
  {
    var s := a + t;
    assert s[0] == a[0] && s[1..] == t;
    if |s| >= 5 {
      var w := s[..5];
      assert w[0] == a[0] && w[1..] == t[..4];
      assert w != " year";
    }
    assert [s[0]] == a;
  }

  /** A run of digits before the unit survives; the unit goes. */
  lemma {:induction false} YearWordsAfterDigits(d: string, unit: string)
    requires AllDigits(d)
    requires unit == " year" || unit == " years"
    ensures RemoveYearWords(d + unit) == d
  {
    if d == [] {
      assert d + unit == unit;
      assert unit[..5] == " year";
      if unit == " years" {
        assert unit[6..] == [];
      } else {
        assert unit[5..] == [];
      }
    } else {
      assert d + unit == d[..1] + (d[1..] + unit);
      YearWordsAfter(d[..1], d[1..] + unit);
      YearWordsAfterDigits(d[1..], unit);
      assert d[..1] + d[1..] == d;
    }
  }

  /** The largest value of the 32-bit integer type the casts produce. */
  const IntMax: int := 0x7FFF_FFFF

  /** A cast that reads the decimal text of every value of the integer
      type, also after one leading blank. That Spark trims blanks before it
      parses a number is assumed here, not modelled. */
  ghost predicate ReadsDecimal(castInt: string -> Option<int>) {
    forall n: nat :: n <= IntMax ==>
      castInt(Decimal(n)) == Some(n) && castInt(" " + Decimal(n)) == Some(n)
  }

  /** A cast that yields null on text without a single digit. */
  ghost predicate RejectsDigitless(castInt: string -> Option<int>) {
    forall s :: FirstDigitRun(s).None? ==> castInt(s).None?
  }

  /** "<n> year" and "<n> years" give n, as in the pandas job. */
  lemma SparkEmpOfYears(c: SparkCasts, n: nat, unit: string)
    requires ReadsDecimal(c.castInt) && n <= IntMax
    requires unit == " year" || unit == " years"
    ensures SparkEmpYears(c, Some(Decimal(n) + unit)) == Some(n)
  {
    NotFixedCase(n, unit);
    YearWordsAfterDigits(Decimal(n), unit);
  }

  /** " <n> months" gives n, as in the pandas job. */
  lemma SparkTermOfMonths(c: SparkCasts, n: nat)
    requires ReadsDecimal(c.castInt) && n <= IntMax
    ensures SparkTermMonths(c, Some(" " + Decimal(n) + " months")) == Some(n)
  {
    var d := Decimal(n);
    var s := " " + d + " months";
    assert s[1] == d[0];
    assert s[..7] != " months";
    assert s[1..] == d + " months";
    RemoveAllAfterDigits(d, " months", " months");
    assert RemoveAll(" months", " months") == "";
    assert d + "" == d;
  }

  // ------------------------------------------------------------------ rows

  /** One row through the withColumn chain. */
  function SparkRow(c: SparkCasts, r: RawLoan): SparkLoan {
    SparkLoan(
      CastDouble(c, r.loanAmnt), SparkIntRate(c, r.intRate), r.grade, r.homeOwnership,
      CastDouble(c, r.annualInc), r.verificationStatus, SparkIssueDate(c, r.issueD),
      r.loanStatus, r.purpose, r.addrState, CastDouble(c, r.dti),
      SparkTermMonths(c, r.term), SparkEmpYears(c, r.empLength))
  }

  function SparkRows(c: SparkCasts, raws: seq<RawLoan>): (rows: seq<SparkLoan>)
    ensures |rows| == |raws|
    ensures forall i :: 0 <= i < |rows| ==>
      rows[i].loanStatus == raws[i].loanStatus && rows[i].grade == raws[i].grade
  {
    seq(|raws|, i requires 0 <= i < |raws| => SparkRow(c, raws[i]))
  }

  /** The filter on a non-null loan_status. */
  function KeepWithStatus(rows: seq<SparkLoan>): (r: seq<SparkLoan>)
    ensures |r| <= |rows|
    ensures forall x :: x in r ==> x.loanStatus.Some? && x in rows
  {
    if rows == [] then []
    else if rows[0].loanStatus.None? then KeepWithStatus(rows[1..])
    else [rows[0]] + KeepWithStatus(rows[1..])
  }

  /** The Spark job's transform: select, clean, drop term and emp_length,
      keep the rows with a loan_status. A missing column aborts the job;
      no cast does. */
  function SparkTransform(c: SparkCasts, t: CsvTable): (r: Result<seq<SparkLoan>, EtlError>)
    ensures r.Err? <==> Missing(t, SelectedColumns) != []
  {
    var missing := Missing(t, SelectedColumns);
    if missing != [] then Err(MissingColumns(missing))
    else Ok(KeepWithStatus(SparkRows(c, RawRows(t))))
  }

  /** Filtering after the row map is mapping the rows that have a
      loan_status. */
  lemma {:induction false} KeepWithStatusOfRows(c: SparkCasts, raws: seq<RawLoan>)
    ensures KeepWithStatus(SparkRows(c, raws)) == SparkRows(c, WithStatus(raws))
  {
    if raws != [] {
      var rows, tail := SparkRows(c, raws), raws[1..];
      KeepWithStatusOfRows(c, tail);
      assert rows[0] == SparkRow(c, raws[0]);
      assert rows[1..] == SparkRows(c, tail);
      if raws[0].loanStatus.Some? {
        SparkRowsCons(c, raws[0], WithStatus(tail));
      }
    }
  }

  lemma SparkRowsCons(c: SparkCasts, r: RawLoan, raws: seq<RawLoan>)
    ensures SparkRows(c, [r] + raws) == [SparkRow(c, r)] + SparkRows(c, raws)
  {
    var s := [r] + raws;
    assert forall i :: 0 < i < |s| ==> s[i] == raws[i - 1];
  }

  /** The Spark output keeps exactly the rows with a loan_status, in their
      order: as many as the input has minus those with a null one. */
  lemma SparkFilterLaw(c: SparkCasts, t: CsvTable)
    requires Missing(t, SelectedColumns) == []
    ensures SparkTransform(c, t).value == SparkRows(c, WithStatus(RawRows(t)))
    ensures |SparkTransform(c, t).value| == t.height - NullStatusCount(RawRows(t))
    ensures forall x :: x in SparkTransform(c, t).value ==> x.loanStatus.Some?
  {
    KeepWithStatusOfRows(c, RawRows(t));
    var kept := WithStatus(RawRows(t));
    forall x | x in SparkRows(c, kept) ensures x.loanStatus.Some? {
      var i :| 0 <= i < |kept| && x == SparkRows(c, kept)[i];
      assert kept[i] in kept;
    }
  }

  // ------------------------------------------------ comparing the variants

  /** On both terms of the sample data the two jobs agree, given a cast
      that reads decimal text. */
  lemma TermFixtureAgrees(c: SparkCasts)
    requires ReadsDecimal(c.castInt)
    ensures SparkTermMonths(c, Some(TermSamples[0])) == ExtractTermMonths(Some(TermSamples[0])) == Some(36)
    ensures SparkTermMonths(c, Some(TermSamples[1])) == ExtractTermMonths(Some(TermSamples[1])) == Some(60)
  {
    TermFixture();
    TermSamplesText();
    SparkTermOfMonths(c, 36);
    SparkTermOfMonths(c, 60);
  }

  /** On every employment length of the sample data the two jobs agree,
      given a cast that reads decimal text. */
  lemma EmpLengthFixtureAgrees(c: SparkCasts)
    requires ReadsDecimal(c.castInt)
    ensures forall k :: 0 <= k < |EmpLengthSamples| ==>
      SparkEmpYears(c, Some(EmpLengthSamples[k])) == Some(CleanEmpLength(Some(EmpLengthSamples[k])))
  {
    EmpLengthSamplesClean();
    SparkEmpYearsChain(c, "");
    forall k | 1 <= k <= 9
      ensures SparkEmpYears(c, Some(EmpLengthSamples[k])) == Some(k)
    {
      EmpLengthSampleText(k);
      SparkEmpOfYears(c, k, if k == 1 then " year" else " years");
    }
  }

  /** Where the variants part: an employment length without digits, such as
      "unknown", is 0 for the pandas job and null for Spark; a term without
      digits aborts the pandas job and is a null for Spark. */
  lemma DigitlessVariantsDiffer(c: SparkCasts, s: string)
    requires RejectsDigitless(c.castInt)
    requires forall i :: 0 <= i < |s| ==> !IsDigit(s[i])
    ensures CleanEmpLength(Some(s)) == 0
    ensures SparkEmpYears(c, Some(s)) == None
    ensures ExtractTermMonths(Some(s)).None? && SparkTermMonths(c, Some(s)) == None
  {
    EmpLengthWithoutDigits(s);
    RemovalKeepsDigitless(s);
    if |s| > 2 {
      assert !IsDigit(s[0]) && !IsDigit(s[2]);
    }
  }

  /** Removing words from digit-free text leaves it digit-free. */
  lemma RemovalKeepsDigitless(s: string)
    requires forall i :: 0 <= i < |s| ==> !IsDigit(s[i])
    ensures FirstDigitRun(RemoveYearWords(s)).None?
    ensures FirstDigitRun(RemoveAll(s, " months")).None?
  {
    var r1, r2 := RemoveYearWords(s), RemoveAll(s, " months");
    forall i | 0 <= i < |r1| ensures !IsDigit(r1[i]) {
      assert r1[i] in r1;
    }
    forall i | 0 <= i < |r2| ensures !IsDigit(r2[i]) {
      assert r2[i] in r2;
    }
  }

  /** With one reader for both, int_rate agrees wherever the pandas cast
      succeeds, and where it raises Spark yields a null. */
  lemma IntRateVariants(p: NumberParsers, c: SparkCasts, x: Option<string>)
    requires c.castDouble == p.asFloat
    ensures IntRateConverts(p, x) ==> SparkIntRate(c, x) == IntRateValue(p, x)
    ensures !IntRateConverts(p, x) ==> x.Some? && SparkIntRate(c, x) == None
  {
  }

  /** Whenever the pandas job succeeds the Spark job does too, with the same
      rows in the same order: the same loan_status, grade and other text
      fields row by row. */
  lemma SameSurvivors(p: NumberParsers, c: SparkCasts, t: CsvTable)
    requires Transform(p, t).Ok?
    ensures SparkTransform(c, t).Ok?
    ensures var pandas, spark := Transform(p, t).value, SparkTransform(c, t).value;
      && |spark| == |pandas|
      && forall i :: 0 <= i < |spark| ==>
           && spark[i].loanStatus == pandas[i].loanStatus && spark[i].grade == pandas[i].grade
           && spark[i].homeOwnership == pandas[i].homeOwnership
           && spark[i].verificationStatus == pandas[i].verificationStatus
           && spark[i].purpose == pandas[i].purpose && spark[i].addrState == pandas[i].addrState
  {
    FilterLaw(p, RawRows(t));
    SparkFilterLaw(c, t);
    var kept := WithStatus(RawRows(t));
    forall i | 0 <= i < |kept| ensures kept[i] in kept {
    }
  }
}
