/** The grade summary query of the analysis step: group the cleaned loans by
    grade, count every row of each group, average loan_amnt and int_rate over
    the rows where they are present, and order the groups by grade.

    The query result is built the way a hash-free aggregation would: one
    accumulator per grade, kept in a list sorted by grade, and each row
    folded into its accumulator. It is proved equal to the reference
    definition of the query (filter the group, drop the nulls, average),
    group by group. */
module GradeSummary {
  import opened Wrappers
  import opened Loans
  import opened PandasRules

  // ---------------------------------------------------------------------
  // Ordering of grades
  // ---------------------------------------------------------------------

  /** Binary (code point by code point) ordering of strings; a proper prefix
      comes first. */
  predicate StrLt(a: string, b: string) {
    if a == [] then b != []
    else if b == [] then false
    else a[0] < b[0] || (a[0] == b[0] && StrLt(a[1..], b[1..]))
  }

  /** ORDER BY grade, ascending, with the null grade placed after every
      present grade. */
  predicate GradeLt(a: Option<string>, b: Option<string>) {
    match (a, b)
    case (Some(x), Some(y)) => StrLt(x, y)
    case (Some(_), None) => true
    case (None, _) => false
  }

  lemma {:induction false} StrLtIrreflexive(a: string)
    ensures !StrLt(a, a)
  {
    if a != [] {
      StrLtIrreflexive(a[1..]);
    }
  }

  lemma {:induction false} StrLtTransitive(a: string, b: string, c: string)
    requires StrLt(a, b) && StrLt(b, c)
    ensures StrLt(a, c)
  {
    if a != [] && b != [] && c != [] && a[0] == b[0] && b[0] == c[0] {
      StrLtTransitive(a[1..], b[1..], c[1..]);
    }
  }

  lemma {:induction false} StrLtTotal(a: string, b: string)
    requires a != b
    ensures StrLt(a, b) || StrLt(b, a)
  {
    if a != [] && b != [] && a[0] == b[0] {
      assert a == [a[0]] + a[1..] && b == [b[0]] + b[1..];
      StrLtTotal(a[1..], b[1..]);
    }
  }

  /** GradeLt is a strict total order: irreflexive, transitive and total on
      distinct grades. */
  lemma GradeOrder(a: Option<string>, b: Option<string>, c: Option<string>)
    ensures !GradeLt(a, a)
    ensures GradeLt(a, b) && GradeLt(b, c) ==> GradeLt(a, c)
    ensures a != b ==> GradeLt(a, b) || GradeLt(b, a)
  {
    if a.Some? {
      StrLtIrreflexive(a.value);
      if b.Some? && c.Some? && GradeLt(a, b) && GradeLt(b, c) {
        StrLtTransitive(a.value, b.value, c.value);
      }
      if b.Some? && a != b {
        StrLtTotal(a.value, b.value);
      }
    }
  }

  // ---------------------------------------------------------------------
  // The reference definition of the query
  // ---------------------------------------------------------------------

  /** One row of the query result: grade, COUNT(*), AVG(loan_amnt),
      AVG(int_rate). An average over no present value is null. */
  datatype SummaryRow = SummaryRow(
    grade: Option<string>,
    numLoans: nat,
    avgLoanAmount: Option<real>,
    avgInterestRate: Option<real>)

  datatype Measure = LoanAmount | InterestRate

  function MeasureOf(r: CleanLoan, m: Measure): Option<real> {
    match m
    case LoanAmount => r.loanAmnt
    case InterestRate => r.intRate
  }

  /** The distinct grades that occur in the rows, null included. */
  function Grades(rows: seq<CleanLoan>): set<Option<string>> {
    set r | r in rows :: r.grade
  }

  /** The rows of one group, in input order. */
  function GroupRows(rows: seq<CleanLoan>, g: Option<string>): (group: seq<CleanLoan>)
    ensures forall r :: r in group <==> r in rows && r.grade == g
  {
    if rows == [] then []
    else (if rows[0].grade == g then [rows[0]] else []) + GroupRows(rows[1..], g)
  }

  /** The non-null values of one measure, in input order: what AVG sees. */
  function PresentValues(rows: seq<CleanLoan>, m: Measure): (vs: seq<real>)
    ensures |vs| <= |rows|
  {
    if rows == [] then []
    else
      (if MeasureOf(rows[0], m).Some? then [MeasureOf(rows[0], m).value] else [])
      + PresentValues(rows[1..], m)
  }

  function Sum(xs: seq<real>): real {
    if xs == [] then 0.0 else xs[0] + Sum(xs[1..])
  }

  /** The arithmetic mean, or null over no value at all. */
  function Mean(xs: seq<real>): (m: Option<real>)
    ensures m.None? <==> xs == []
  {
    if xs == [] then None else Some(Sum(xs) / (|xs| as real))
  }

  /** What the query reports for grade g. */
  function ReferenceRow(rows: seq<CleanLoan>, g: Option<string>): (r: SummaryRow)
    ensures r.grade == g
    ensures r.numLoans == 0 <==> g !in Grades(rows)
  {
    var group := GroupRows(rows, g);
    SummaryRow(g, |group|, Mean(PresentValues(group, LoanAmount)),
               Mean(PresentValues(group, InterestRate)))
  }

  // ---------------------------------------------------------------------
  // The aggregation
  // ---------------------------------------------------------------------

  /** Running state of one group: its row count and, per measure, the sum and
      the number of present values. */
  datatype Acc = Acc(grade: Option<string>, count: nat,
                     loanSum: real, loanN: nat, rateSum: real, rateN: nat)

  function Empty(g: Option<string>): Acc {
    Acc(g, 0, 0.0, 0, 0.0, 0)
  }

  /** Fold one row into its group's accumulator; a null measure adds to the
      row count only. */
  function AddTo(a: Acc, r: CleanLoan): (b: Acc)
    ensures b.grade == a.grade && b.count == a.count + 1
    ensures b.loanN == a.loanN + (if r.loanAmnt.Some? then 1 else 0)
    ensures b.rateN == a.rateN + (if r.intRate.Some? then 1 else 0)
  {
    a.(count := a.count + 1,
       loanSum := a.loanSum + (if r.loanAmnt.Some? then r.loanAmnt.value else 0.0),
       loanN := a.loanN + (if r.loanAmnt.Some? then 1 else 0),
       rateSum := a.rateSum + (if r.intRate.Some? then r.intRate.value else 0.0),
       rateN := a.rateN + (if r.intRate.Some? then 1 else 0))
  }

  function Keys(accs: seq<Acc>): set<Option<string>> {
    set a | a in accs :: a.grade
  }

  ghost predicate Sorted(accs: seq<Acc>) {
    forall i, j :: 0 <= i < j < |accs| ==> GradeLt(accs[i].grade, accs[j].grade)
  }

  /** Fold a row into the sorted accumulator list: update its group when the
      group is there, otherwise open the group at its place in grade order. */
  function Insert(accs: seq<Acc>, r: CleanLoan): (res: seq<Acc>)
    ensures 1 <= |res| <= |accs| + 1
    ensures (forall a :: a in accs ==> a.count > 0) ==> forall b :: b in res ==> b.count > 0
  {
    if accs == [] then [AddTo(Empty(r.grade), r)]
    else if accs[0].grade == r.grade then [AddTo(accs[0], r)] + accs[1..]
    else if GradeLt(r.grade, accs[0].grade) then [AddTo(Empty(r.grade), r)] + accs
    else [accs[0]] + Insert(accs[1..], r)
  }

  /** Inserting adds the row's grade to the keys and no other. */
  lemma {:induction false} InsertKeys(accs: seq<Acc>, r: CleanLoan)
    ensures Keys(Insert(accs, r)) == Keys(accs) + {r.grade}
  {
    if accs == [] {
      KeysCons(AddTo(Empty(r.grade), r), []);
    } else {
      var tail := accs[1..];
      assert accs == [accs[0]] + tail;
      KeysCons(accs[0], tail);
      if accs[0].grade == r.grade {
        KeysCons(AddTo(accs[0], r), tail);
      } else if GradeLt(r.grade, accs[0].grade) {
        KeysCons(AddTo(Empty(r.grade), r), accs);
      } else {
        InsertKeys(tail, r);
        KeysCons(accs[0], Insert(tail, r));
      }
    }
  }

  lemma KeysCons(a: Acc, xs: seq<Acc>)
    ensures Keys([a] + xs) == {a.grade} + Keys(xs)
  {
    var s := [a] + xs;
    forall g | g in Keys(s)
      ensures g in {a.grade} + Keys(xs)
    {
      var b :| b in s && b.grade == g;
      if b != a {
        assert b in xs;
      }
    }
    forall g | g in Keys(xs)
      ensures g in Keys(s)
    {
      var b :| b in xs && b.grade == g;
      assert b in s;
    }
    assert a in s;
  }

  function Accumulate(rows: seq<CleanLoan>): (accs: seq<Acc>)
    ensures |accs| <= |rows| && (accs == [] <==> rows == [])
    ensures forall a :: a in accs ==> a.count > 0
  {
    if rows == [] then [] else Insert(Accumulate(rows[1..]), rows[0])
  }

  function MeanOf(sum: real, n: nat): Option<real> {
    if n == 0 then None else Some(sum / (n as real))
  }

  function Finish(a: Acc): SummaryRow {
    SummaryRow(a.grade, a.count, MeanOf(a.loanSum, a.loanN), MeanOf(a.rateSum, a.rateN))
  }

  /** The query: SELECT grade, COUNT(*), AVG(loan_amnt), AVG(int_rate)
      GROUP BY grade ORDER BY grade. */
  function Summarize(rows: seq<CleanLoan>): (out: seq<SummaryRow>)
    ensures |out| == |Accumulate(rows)|
    ensures |out| <= |rows| && (out == [] <==> rows == [])
    ensures forall i :: 0 <= i < |out| ==> out[i].numLoans > 0
  {
    var accs := Accumulate(rows);
    seq(|accs|, i requires 0 <= i < |accs| => Finish(accs[i]))
  }

  // ---------------------------------------------------------------------
  // Proof that the aggregation computes the reference
  // ---------------------------------------------------------------------

  /** The accumulator the reference definition implies for grade g. */
  function AccOf(rows: seq<CleanLoan>, g: Option<string>): Acc {
    var group := GroupRows(rows, g);
    var loans, rates := PresentValues(group, LoanAmount), PresentValues(group, InterestRate);
    Acc(g, |group|, Sum(loans), |loans|, Sum(rates), |rates|)
  }

  lemma AccOfCons(r: CleanLoan, rest: seq<CleanLoan>, g: Option<string>)
    ensures AccOf([r] + rest, g) == if r.grade == g then AddTo(AccOf(rest, g), r) else AccOf(rest, g)
  {
    var rows := [r] + rest;
    assert rows[0] == r && rows[1..] == rest;
    var group := GroupRows(rest, g);
    if r.grade == g {
      assert GroupRows(rows, g) == [r] + group;
      PresentCons(r, group, LoanAmount);
      PresentCons(r, group, InterestRate);
    } else {
      assert GroupRows(rows, g) == [] + group == group;
    }
  }

  lemma PresentCons(r: CleanLoan, rows: seq<CleanLoan>, m: Measure)
    ensures var vs := PresentValues(rows, m);
      if MeasureOf(r, m).Some? then
        PresentValues([r] + rows, m) == [MeasureOf(r, m).value] + vs
        && Sum([MeasureOf(r, m).value] + vs) == MeasureOf(r, m).value + Sum(vs)
      else PresentValues([r] + rows, m) == vs
  {
    var s := [r] + rows;
    assert s[0] == r && s[1..] == rows;
    if MeasureOf(r, m).Some? {
      var vs := PresentValues(rows, m);
      assert ([MeasureOf(r, m).value] + vs)[1..] == vs;
    } else {
      assert [] + PresentValues(rows, m) == PresentValues(rows, m);
    }
  }

  lemma {:induction false} GroupAbsent(rows: seq<CleanLoan>, g: Option<string>)
    requires g !in Grades(rows)
    ensures GroupRows(rows, g) == []
  {
    if rows != [] {
      assert rows[0] in rows;
      assert forall r :: r in rows[1..] ==> r in rows;
      GroupAbsent(rows[1..], g);
    }
  }

  lemma AccOfAbsent(rows: seq<CleanLoan>, g: Option<string>)
    requires g !in Grades(rows)
    ensures AccOf(rows, g) == Empty(g)
  {
    GroupAbsent(rows, g);
  }

  lemma {:induction false} InsertSorted(accs: seq<Acc>, r: CleanLoan)
    requires Sorted(accs)
    ensures Sorted(Insert(accs, r))
  {
    if accs != [] && accs[0].grade != r.grade {
      var res := Insert(accs, r);
      GradeOrder(r.grade, accs[0].grade, r.grade);
      if GradeLt(r.grade, accs[0].grade) {
        forall j | 0 < j < |res|
          ensures GradeLt(res[0].grade, res[j].grade)
        {
          assert res[j] == accs[j - 1];
          if j > 1 {
            GradeOrder(r.grade, accs[0].grade, accs[j - 1].grade);
          }
        }
      } else {
        var tail := Insert(accs[1..], r);
        InsertSorted(accs[1..], r);
        InsertKeys(accs[1..], r);
        assert res == [accs[0]] + tail;
        forall j | 0 <= j < |tail|
          ensures GradeLt(accs[0].grade, tail[j].grade)
        {
          assert tail[j].grade in Keys(tail);
          if tail[j].grade != r.grade {
            var a :| a in accs[1..] && a.grade == tail[j].grade;
            var i :| 0 <= i < |accs[1..]| && accs[1..][i] == a;
            assert accs[i + 1] == a;
          }
        }
      }
    }
  }

  /** In a sorted list every key lies at or after the first one, so a grade
      below the first is absent. */
  lemma SortedBelowHead(accs: seq<Acc>, g: Option<string>)
    requires Sorted(accs) && accs != [] && GradeLt(g, accs[0].grade)
    ensures g !in Keys(accs)
  {
    if g in Keys(accs) {
      var a :| a in accs && a.grade == g;
      var i :| 0 <= i < |accs| && accs[i] == a;
      GradeOrder(g, accs[0].grade, g);
    }
  }

  ghost predicate Agrees(accs: seq<Acc>, rows: seq<CleanLoan>) {
    forall a :: a in accs ==> a == AccOf(rows, a.grade)
  }

  /** Accumulators of other grades are unaffected by row r. */
  lemma OthersAgree(accs: seq<Acc>, r: CleanLoan, rest: seq<CleanLoan>)
    requires Agrees(accs, rest)
    requires r.grade !in Keys(accs)
    ensures Agrees(accs, [r] + rest)
  {
    forall a | a in accs
      ensures a == AccOf([r] + rest, a.grade)
    {
      AccOfCons(r, rest, a.grade);
    }
  }

  /** Opening a new group for r, ahead of the existing ones. */
  lemma InsertOpens(accs: seq<Acc>, r: CleanLoan, rest: seq<CleanLoan>)
    requires Agrees(accs, rest)
    requires r.grade !in Keys(accs)
    requires r.grade !in Grades(rest)
    ensures Agrees([AddTo(Empty(r.grade), r)] + accs, [r] + rest)
  {
    OthersAgree(accs, r, rest);
    AccOfCons(r, rest, r.grade);
    AccOfAbsent(rest, r.grade);
  }

  /** Updating the group of r, at the head of a sorted list. */
  lemma InsertUpdates(accs: seq<Acc>, r: CleanLoan, rest: seq<CleanLoan>)
    requires Sorted(accs) && accs != [] && accs[0].grade == r.grade
    requires Agrees(accs, rest)
    ensures Agrees([AddTo(accs[0], r)] + accs[1..], [r] + rest)
  {
    var tail := accs[1..];
    assert Sorted(tail) && Agrees(tail, rest);
    forall a | a in tail
      ensures a.grade != r.grade
    {
      var j :| 0 <= j < |tail| && tail[j] == a;
      assert accs[j + 1] == a;
      GradeOrder(r.grade, r.grade, r.grade);
    }
    OthersAgree(tail, r, rest);
    AccOfCons(r, rest, r.grade);
  }

  /** Folding row r into accumulators that agree with the reference on rest
      gives accumulators that agree with the reference on [r] + rest. */
  lemma {:induction false} InsertAgrees(accs: seq<Acc>, r: CleanLoan, rest: seq<CleanLoan>)
    requires Sorted(accs)
    requires Agrees(accs, rest)
    requires r.grade in Grades(rest) ==> r.grade in Keys(accs)
    ensures Agrees(Insert(accs, r), [r] + rest)
  {
    if accs == [] {
      InsertOpens(accs, r, rest);
    } else if accs[0].grade == r.grade {
      InsertUpdates(accs, r, rest);
    } else if GradeLt(r.grade, accs[0].grade) {
      SortedBelowHead(accs, r.grade);
      InsertOpens(accs, r, rest);
    } else {
      var tail := accs[1..];
      assert Sorted(tail) && Agrees(tail, rest);
      assert r.grade in Keys(accs) ==> r.grade in Keys(tail) by {
        assert accs == [accs[0]] + tail;
      }
      InsertAgrees(tail, r, rest);
      OthersAgree([accs[0]], r, rest);
      assert Insert(accs, r) == [accs[0]] + Insert(tail, r);
    }
  }

  /** The accumulators are sorted strictly by grade, hold exactly the grades
      of the input, and each holds what the reference gives for its grade. */
  lemma {:induction false} AccumulateAgrees(rows: seq<CleanLoan>)
    ensures Sorted(Accumulate(rows))
    ensures Keys(Accumulate(rows)) == Grades(rows)
    ensures forall a :: a in Accumulate(rows) ==> a == AccOf(rows, a.grade)
  {
    if rows != [] {
      var rest := rows[1..];
      AccumulateAgrees(rest);
      assert rows == [rows[0]] + rest;
      assert Grades(rows) == Grades(rest) + {rows[0].grade};
      InsertSorted(Accumulate(rest), rows[0]);
      InsertKeys(Accumulate(rest), rows[0]);
      InsertAgrees(Accumulate(rest), rows[0], rest);
    }
  }

  lemma AccumulateSorted(rows: seq<CleanLoan>)
    ensures Sorted(Accumulate(rows)) && Keys(Accumulate(rows)) == Grades(rows)
  {
    AccumulateAgrees(rows);
  }

  /** The query result: strictly ascending by grade (so one row per grade),
      one row for every grade that occurs in the input and no other, and each
      row equal to the reference row for its grade. */
  lemma SummarizeCorrect(rows: seq<CleanLoan>)
    ensures var out := Summarize(rows);
      forall i, j :: 0 <= i < j < |out| ==> GradeLt(out[i].grade, out[j].grade)
    ensures forall g :: g in Grades(rows) <==> exists o :: o in Summarize(rows) && o.grade == g
    ensures forall o :: o in Summarize(rows) ==> o == ReferenceRow(rows, o.grade)
  {
    var out := Summarize(rows);
    SummarizeSorted(rows);
    forall g | g in Grades(rows)
      ensures exists o :: o in out && o.grade == g
    {
      SummarizeHasGrade(rows, g);
    }
    forall o | o in out
      ensures o.grade in Grades(rows) && o == ReferenceRow(rows, o.grade)
    {
      var i :| 0 <= i < |out| && out[i] == o;
      SummarizeRowAt(rows, i);
    }
  }

  lemma SummarizeSorted(rows: seq<CleanLoan>)
    ensures var out := Summarize(rows);
      forall i, j :: 0 <= i < j < |out| ==> GradeLt(out[i].grade, out[j].grade)
  {
    var accs, out := Accumulate(rows), Summarize(rows);
    AccumulateSorted(rows);
    forall i, j | 0 <= i < j < |out|
      ensures GradeLt(out[i].grade, out[j].grade)
    {
      assert out[i].grade == accs[i].grade && out[j].grade == accs[j].grade;
    }
  }

  lemma SummarizeHasGrade(rows: seq<CleanLoan>, g: Option<string>)
    requires g in Grades(rows)
    ensures exists o :: o in Summarize(rows) && o.grade == g
  {
    var accs, out := Accumulate(rows), Summarize(rows);
    AccumulateSorted(rows);
    assert g in Keys(accs);
    var a :| a in accs && a.grade == g;
    var i :| 0 <= i < |accs| && accs[i] == a;
    assert out[i].grade == g;
  }

  lemma SummarizeRowAt(rows: seq<CleanLoan>, i: nat)
    requires i < |Summarize(rows)|
    ensures var o := Summarize(rows)[i];
      o.grade in Grades(rows) && o == ReferenceRow(rows, o.grade)
  {
    var accs := Accumulate(rows);
    AccumulateAgrees(rows);
    assert accs[i] in accs;
    assert Summarize(rows)[i] == Finish(accs[i]);
  }

  /** Sorted by grade and distinct: no grade is reported twice. */
  lemma SummarizeDistinct(rows: seq<CleanLoan>)
    ensures var out := Summarize(rows);
      forall i, j :: 0 <= i < j < |out| ==> out[i].grade != out[j].grade
  {
    SummarizeCorrect(rows);
    var out := Summarize(rows);
    forall i, j | 0 <= i < j < |out|
      ensures out[i].grade != out[j].grade
    {
      GradeOrder(out[i].grade, out[j].grade, out[j].grade);
    }
  }

  // ---------------------------------------------------------------------
  // Counts add up
  // ---------------------------------------------------------------------

  function TotalLoans(out: seq<SummaryRow>): nat {
    if out == [] then 0 else out[0].numLoans + TotalLoans(out[1..])
  }

  function AccTotal(accs: seq<Acc>): nat {
    if accs == [] then 0 else accs[0].count + AccTotal(accs[1..])
  }

  lemma {:induction false} InsertTotal(accs: seq<Acc>, r: CleanLoan)
    ensures AccTotal(Insert(accs, r)) == AccTotal(accs) + 1
  {
    if accs != [] {
      var res := Insert(accs, r);
      if accs[0].grade == r.grade {
        assert res[1..] == accs[1..];
      } else if GradeLt(r.grade, accs[0].grade) {
        assert res[1..] == accs;
      } else {
        InsertTotal(accs[1..], r);
        assert res[1..] == Insert(accs[1..], r);
      }
    }
  }

  lemma {:induction false} AccumulateTotal(rows: seq<CleanLoan>)
    ensures AccTotal(Accumulate(rows)) == |rows|
  {
    if rows != [] {
      AccumulateTotal(rows[1..]);
      InsertTotal(Accumulate(rows[1..]), rows[0]);
    }
  }

  lemma {:induction false} FinishTotal(accs: seq<Acc>)
    ensures TotalLoans(seq(|accs|, i requires 0 <= i < |accs| => Finish(accs[i]))) == AccTotal(accs)
  {
    var out := seq(|accs|, i requires 0 <= i < |accs| => Finish(accs[i]));
    if accs != [] {
      FinishTotal(accs[1..]);
      assert out[1..] == seq(|accs[1..]|, i requires 0 <= i < |accs[1..]| => Finish(accs[1..][i]));
    }
  }

  /** COUNT(*) counts every row exactly once: the counts of the groups add up
      to the number of input rows, whatever is null in them. */
  lemma SummarizeTotal(rows: seq<CleanLoan>)
    ensures TotalLoans(Summarize(rows)) == |rows|
  {
    AccumulateTotal(rows);
    FinishTotal(Accumulate(rows));
  }

  /** Over the pandas output the counts add up to the input rows that have a
      loan status: the summary loses no cleaned row. */
  lemma PipelineTotal(p: NumberParsers, t: CsvTable)
    requires Transform(p, t).Ok?
    ensures TotalLoans(Summarize(Transform(p, t).value)) == t.height - NullStatusCount(RawRows(t))
  {
    FilterLaw(p, RawRows(t));
    SummarizeTotal(Transform(p, t).value);
  }

  // ---------------------------------------------------------------------
  // Worked examples
  // ---------------------------------------------------------------------

  function Loan(grade: Option<string>, amount: Option<real>, rate: Option<real>): CleanLoan {
    CleanLoan(amount, rate, grade, None, None, None, None, Some("Current"), None, None, None, 36, 0)
  }

  /** Two grade A loans and one grade B loan: A averages the two, B stands
      alone, and A comes first. */
  lemma ThreeLoanExample()
    ensures Summarize([Loan(Some("A"), Some(10000.0), Some(10.0)),
                       Loan(Some("A"), Some(20000.0), Some(20.0)),
                       Loan(Some("B"), Some(5000.0), Some(5.0))])
         == [SummaryRow(Some("A"), 2, Some(15000.0), Some(15.0)),
             SummaryRow(Some("B"), 1, Some(5000.0), Some(5.0))]
  {
    var a1, a2 := Loan(Some("A"), Some(10000.0), Some(10.0)), Loan(Some("A"), Some(20000.0), Some(20.0));
    var b := Loan(Some("B"), Some(5000.0), Some(5.0));
    var rows := [a1, a2, b];
    assert rows[1..] == [a2, b] && rows[1..][1..] == [b] && [b][1..] == [];
    assert GradeLt(Some("A"), Some("B"));
    var accB := [AddTo(Empty(Some("B")), b)];
    assert Accumulate([b]) == accB;
    assert Accumulate([a2, b]) == [AddTo(Empty(Some("A")), a2)] + accB;
    assert Accumulate(rows) == [AddTo(AddTo(Empty(Some("A")), a2), a1)] + accB;
  }

  /** A null loan amount counts as a loan but not towards the average: one
      null and one 100 average to 100, not 50. */
  lemma NullAmountSkipped()
    ensures Summarize([Loan(Some("C"), None, Some(7.0)), Loan(Some("C"), Some(100.0), Some(8.0))])
         == [SummaryRow(Some("C"), 2, Some(100.0), Some(7.5))]
  {
    var x, y := Loan(Some("C"), None, Some(7.0)), Loan(Some("C"), Some(100.0), Some(8.0));
    var rows := [x, y];
    assert rows[1..] == [y] && [y][1..] == [];
    assert Accumulate([y]) == [Acc(Some("C"), 1, 100.0, 1, 8.0, 1)];
    assert Accumulate(rows) == [Acc(Some("C"), 2, 100.0, 1, 15.0, 2)];
  }

  /** Null grades form one group of their own, reported after every present
      grade. */
  lemma NullGradeLast(rows: seq<CleanLoan>)
    requires None in Grades(rows)
    ensures var out := Summarize(rows);
      |out| > 0 && out[|out| - 1].grade.None?
  {
    var accs := Accumulate(rows);
    AccumulateSorted(rows);
    assert None in Keys(accs);
    var a :| a in accs && a.grade == None;
    var i :| 0 <= i < |accs| && accs[i] == a;
    var last := |accs| - 1;
    assert !GradeLt(accs[i].grade, accs[last].grade);
    assert Sorted(accs);
    assert i == last;
    var out := Summarize(rows);
    assert |out| == |accs| && out[last] == Finish(accs[last]);
  }
}
