/** The attendance sheet (`processar_frequencia_pandas`): every row is a
    student of a course with one mark per class day; the last five columns
    are the class days. A row without a name or a course is an anomaly; a
    student with at least 60% presence on the valid days is approved,
    everybody else is rejected with a reason. */
module Attendance {
  import opened Text
  import opened Numbers
  import opened Capitalization
  import opened Courses
  import opened Dates

  /** One row of the sheet: column name to cell text; None is a missing
      value (NaN). Values are the text Python's str() gives for them. */
  type Row = map<string, Option<string>>

  datatype Sheet = Sheet(columns: seq<string>, rows: seq<Row>)

  /** An approved student (one dict of `alunos_aprovados`): NOME, NOME_ORIGINAL,
      CURSO, CURSO_ORIGINAL, DATA_CONCLUSAO, DETALHES_PRESENCA and, in the
      earlier revision only, PORCENTAGEM_PRESENCA. */
  datatype Approved = Approved(
    name: string, originalName: string,
    course: string, originalCourse: string,
    completion: string, attendance: string,
    percentage: Option<string>)

  /** A rejected student: NOME, CURSO, MOTIVO, DETALHES_PRESENCA. */
  datatype Rejected = Rejected(name: string, course: string, reason: string, attendance: string)

  /** A row that could not be judged: indice, tipo, detalhes. */
  datatype Anomaly = Anomaly(index: nat, kind: string, details: string)

  /** What becomes of one row. */
  datatype Outcome = Anomalous(anomaly: Anomaly) | Failed(rejected: Rejected) | Passed(approved: Approved)

  const NameColumn := "ALUNOS"
  const CourseColumn := "CURSO"

  /** How many trailing columns hold class days. */
  const DateColumnCount := 5

  /** The smallest approving presence, in percent. */
  const PassPercent: real := 60.0

  const MissingData := "Dados faltantes"
  const NoValidDays := "Sem dias válidos de presença"

  /** Every column of the sheet, the name and course columns among them, has
      a cell in the row (as in every row of a data frame). */
  predicate RowComplete(row: Row, columns: seq<string>) {
    && NameColumn in row && CourseColumn in row
    && forall i :: 0 <= i < |columns| ==> columns[i] in row
  }

  /** The sheet has the name and course columns, and every row is complete. */
  predicate WellFormed(sheet: Sheet) {
    && NameColumn in sheet.columns && CourseColumn in sheet.columns
    && forall k :: 0 <= k < |sheet.rows| ==> RowComplete(sheet.rows[k], sheet.columns)
  }

  /** `df.columns[-5:]`: the last five columns, or all of them when there are
      fewer. */
  function DateColumns(columns: seq<string>): (r: seq<string>)
    ensures |r| == if |columns| < DateColumnCount then |columns| else DateColumnCount
    ensures r == columns[|columns| - |r|..]
  {
    if |columns| <= DateColumnCount then columns else columns[|columns| - DateColumnCount..]
  }

  /** `str(v) if pd.notna(v) else ""`. */
  function CellText(cell: Option<string>): (r: string)
    ensures cell.None? ==> r == ""
    ensures cell.Some? ==> r == cell.value
  {
    if cell.Some? then cell.value else ""
  }

  /** A presence mark: "" for a missing value, the upper-cased text otherwise. */
  function Mark(cell: Option<string>): (m: string)
    ensures cell.None? ==> m == ""
    ensures cell.Some? ==> |m| == |cell.value| && forall i :: 0 <= i < |m| ==> m[i] == Upper(cell.value[i])
  {
    if cell.None? then "" else UpperStr(cell.value)
  }

  /** The marks of a row in the given columns, in column order. */
  function Marks(row: Row, columns: seq<string>): (marks: seq<string>)
    requires forall i :: 0 <= i < |columns| ==> columns[i] in row
    ensures |marks| == |columns| && forall i :: 0 <= i < |columns| ==> marks[i] == Mark(row[columns[i]])
  {
    seq(|columns|, i requires 0 <= i < |columns| => Mark(row[columns[i]]))
  }

  /** Only P, F and FJ make a day count. */
  predicate IsValidMark(m: string) {
    m == "P" || m == "F" || m == "FJ"
  }

  /** P and FJ (a justified absence) count as presence. */
  predicate IsPresentMark(m: string) {
    m == "P" || m == "FJ"
  }

  /** The number of valid days among the marks. */
  function ValidCount(marks: seq<string>): (n: nat)
    ensures n <= |marks|
  {
    if marks == [] then 0
    else ValidCount(marks[..|marks| - 1]) + (if IsValidMark(marks[|marks| - 1]) then 1 else 0)
  }

  /** The number of days with presence among the marks. */
  function PresentCount(marks: seq<string>): (n: nat)
    ensures n <= ValidCount(marks)
  {
    if marks == [] then 0
    else PresentCount(marks[..|marks| - 1]) + (if IsPresentMark(marks[|marks| - 1]) then 1 else 0)
  }

  /** The positions of the valid days among the marks. */
  function ValidDays(marks: seq<string>): set<nat> {
    set i: nat | i < |marks| && IsValidMark(marks[i])
  }

  /** The positions of the days with presence among the marks. */
  function PresentDays(marks: seq<string>): set<nat> {
    set i: nat | i < |marks| && IsPresentMark(marks[i])
  }

  /** The number of valid days is the number of positions holding P, F or
      FJ. */
  lemma {:induction false} ValidCountSize(marks: seq<string>)
    ensures ValidCount(marks) == |ValidDays(marks)|
  {
    if marks != [] {
      var n := |marks| - 1;
      var init := marks[..n];
      ValidCountSize(init);
      ValidDaysSnoc(marks);
    }
  }

  lemma ValidDaysSnoc(marks: seq<string>)
    requires marks != []
    ensures var n := |marks| - 1;
      && ValidDays(marks) == ValidDays(marks[..n]) + (if IsValidMark(marks[n]) then {n} else {})
      && n !in ValidDays(marks[..n])
  {
    var n := |marks| - 1;
    assert forall i :: 0 <= i < n ==> marks[..n][i] == marks[i];
  }

  /** The number of days with presence is the number of positions holding P
      or FJ. */
  lemma {:induction false} PresentCountSize(marks: seq<string>)
    ensures PresentCount(marks) == |PresentDays(marks)|
  {
    if marks != [] {
      var n := |marks| - 1;
      var init := marks[..n];
      PresentCountSize(init);
      PresentDaysSnoc(marks);
    }
  }

  lemma PresentDaysSnoc(marks: seq<string>)
    requires marks != []
    ensures var n := |marks| - 1;
      && PresentDays(marks) == PresentDays(marks[..n]) + (if IsPresentMark(marks[n]) then {n} else {})
      && n !in PresentDays(marks[..n])
  {
    var n := |marks| - 1;
    assert forall i :: 0 <= i < n ==> marks[..n][i] == marks[i];
  }

  /** Every day with presence is a valid day. */
  lemma PresentDaysValid(marks: seq<string>)
    ensures PresentDays(marks) <= ValidDays(marks)
  {
  }

  /** No valid day exactly when no mark is P, F or FJ. */
  lemma NoValidDay(marks: seq<string>)
    ensures ValidCount(marks) == 0 <==> forall i :: 0 <= i < |marks| ==> !IsValidMark(marks[i])
  {
    ValidCountSize(marks);
    if ValidCount(marks) == 0 {
      assert ValidDays(marks) == {};
      forall i | 0 <= i < |marks| ensures !IsValidMark(marks[i]) {
        assert i !in ValidDays(marks);
      }
    } else {
      var i :| i in ValidDays(marks);
      assert IsValidMark(marks[i]);
    }
  }

  /** `t` is the upper-case ASCII word `w` written in any mixture of case. */
  predicate SpelledAs(t: string, w: string) {
    |t| == |w| && forall i :: 0 <= i < |t| ==> t[i] == w[i] || t[i] == Lower(w[i])
  }

  lemma UpperLetter(c: char, w: char)
    requires 'A' <= w <= 'Z'
    ensures Upper(c) == w <==> c == w || c == Lower(w)
  {
  }

  lemma UpperSpells(t: string, w: string)
    requires forall i :: 0 <= i < |w| ==> 'A' <= w[i] <= 'Z'
    ensures UpperStr(t) == w <==> SpelledAs(t, w)
  {
    if |t| == |w| {
      forall i | 0 <= i < |t| ensures Upper(t[i]) == w[i] <==> t[i] == w[i] || t[i] == Lower(w[i]) {
        UpperLetter(t[i], w[i]);
      }
    }
  }

  /** A missing cell is never a valid day. A cell is a valid day exactly when
      its text is P, F or FJ and a presence exactly when it is P or FJ, in
      any mixture of case. */
  lemma MarkRule(cell: Option<string>)
    ensures cell.None? ==> !IsValidMark(Mark(cell)) && !IsPresentMark(Mark(cell))
    ensures cell.Some? ==>
      (IsValidMark(Mark(cell)) <==> SpelledAs(cell.value, "P") || SpelledAs(cell.value, "F") || SpelledAs(cell.value, "FJ"))
    ensures cell.Some? ==>
      (IsPresentMark(Mark(cell)) <==> SpelledAs(cell.value, "P") || SpelledAs(cell.value, "FJ"))
  {
    if cell.Some? {
      UpperSpells(cell.value, "P");
      UpperSpells(cell.value, "F");
      UpperSpells(cell.value, "FJ");
    }
  }

  /** DETALHES_PRESENCA: "column: mark" for every date column, joined by ", ". */
  function Summary(columns: seq<string>, marks: seq<string>): string
    requires |marks| == |columns|
  {
    Join(seq(|columns|, i requires 0 <= i < |columns| => columns[i] + ": " + marks[i]), ", ")
  }

  /** The presence in percent, computed exactly. */
  function Percent(present: nat, valid: nat): real
    requires valid > 0
  {
    (present as real / valid as real) * 100.0
  }

  /** The approval test `porcentagem_presenca >= 60`, stated on integers
      (PassThreshold shows it is the test on the exact percentage). */
  predicate Passes(present: nat, valid: nat) {
    5 * present >= 3 * valid
  }

  /** The percentage in tenths of a percent, rounded half up. */
  function Tenths(present: nat, valid: nat): nat
    requires valid > 0
  {
    (2000 * present + valid) / (2 * valid)
  }

  /** The rounded value is within half a tenth of the exact percentage
      1000 * present / valid (in tenths), with halves going up. */
  lemma TenthsNearest(present: nat, valid: nat)
    requires valid > 0
    ensures var t := Tenths(present, valid);
      -(valid as int) < 2 * (t * valid - 1000 * present) <= valid
  {
    var n, d := 2000 * present + valid, 2 * valid;
    var t := n / d;
    assert t * d <= n < t * d + d;
  }

  /** `f"{p:.1f}%"`: the percentage with one decimal. */
  function PercentText(present: nat, valid: nat): string
    requires valid > 0
  {
    var t := Tenths(present, valid);
    NatToString(t / 10) + "." + [DigitChar(t % 10)] + "%"
  }

  /** What happens to row `k`. */
  function Judge(sheet: Sheet, k: nat, withPercentage: bool): Outcome
    requires WellFormed(sheet) && k < |sheet.rows|
  {
    var row := sheet.rows[k];
    var name := CellText(row[NameColumn]);
    var course := CellText(row[CourseColumn]);
    if name == "" || course == "" then
      Anomalous(Anomaly(k, MissingData, "Nome: '" + name + "', Curso: '" + course + "'"))
    else
      var columns := DateColumns(sheet.columns);
      Verdict(name, course, columns, Marks(row, columns), withPercentage)
  }

  /** The verdict on a student with a name and a course, from the marks in
      the date columns. */
  function Verdict(name: string, course: string, columns: seq<string>, marks: seq<string>, withPercentage: bool): Outcome
    requires |marks| == |columns|
  {
    var summary := Summary(columns, marks);
    var valid := ValidCount(marks);
    var present := PresentCount(marks);
    if valid == 0 then
      Failed(Rejected(name, course, NoValidDays, summary))
    else if Passes(present, valid) then
      Passed(Approved(Capitalized(name), name, CertificateCourse(course), course,
        FormatDate(columns[|columns| - 1]), summary,
        if withPercentage then Some(PercentText(present, valid)) else None))
    else
      Failed(Rejected(name, course, "Presença insuficiente (" + PercentText(present, valid) + ")", summary))
  }

  /** The outcomes of the first `n` rows, in row order. */
  function Outcomes(sheet: Sheet, n: nat, withPercentage: bool): (os: seq<Outcome>)
    requires WellFormed(sheet) && n <= |sheet.rows|
    ensures |os| == n
  {
    if n == 0 then [] else Outcomes(sheet, n - 1, withPercentage) + [Judge(sheet, n - 1, withPercentage)]
  }

  function Approvals(os: seq<Outcome>): seq<Approved> {
    if os == [] then []
    else Approvals(os[..|os| - 1]) + (if os[|os| - 1].Passed? then [os[|os| - 1].approved] else [])
  }

  function Rejections(os: seq<Outcome>): seq<Rejected> {
    if os == [] then []
    else Rejections(os[..|os| - 1]) + (if os[|os| - 1].Failed? then [os[|os| - 1].rejected] else [])
  }

  function Anomalies(os: seq<Outcome>): seq<Anomaly> {
    if os == [] then []
    else Anomalies(os[..|os| - 1]) + (if os[|os| - 1].Anomalous? then [os[|os| - 1].anomaly] else [])
  }

  /** The loop over the date columns of one row. */
  method ReadMarks(row: Row, columns: seq<string>) returns (marks: seq<string>)
    requires forall i :: 0 <= i < |columns| ==> columns[i] in row
    ensures marks == Marks(row, columns)
  {
    marks := [];
    var i := 0;
    while i < |columns|
      invariant 0 <= i <= |columns|
      invariant marks == Marks(row, columns[..i])
    {
      var cell := row[columns[i]];
      var mark := if cell.None? then "" else UpperStr(cell.value);
      assert columns[..i + 1] == columns[..i] + [columns[i]];
      marks := marks + [mark];
      i := i + 1;
    }
    assert columns[..i] == columns;
  }

  /** The body of the row loop. */
  method JudgeRow(sheet: Sheet, columns: seq<string>, k: nat, withPercentage: bool) returns (outcome: Outcome)
    requires WellFormed(sheet) && k < |sheet.rows| && columns == DateColumns(sheet.columns)
    ensures outcome == Judge(sheet, k, withPercentage)
  {
    var row := sheet.rows[k];
    var name := if row[NameColumn].Some? then row[NameColumn].value else "";
    var course := if row[CourseColumn].Some? then row[CourseColumn].value else "";
    if name == "" || course == "" {
      return Anomalous(Anomaly(k, MissingData, "Nome: '" + name + "', Curso: '" + course + "'"));
    }
    var marks := ReadMarks(row, columns);
    outcome := Assess(name, course, columns, marks, withPercentage);
  }

  /** The rest of the row loop's body, once the marks are read. */
  method Assess(name: string, course: string, columns: seq<string>, marks: seq<string>, withPercentage: bool)
      returns (outcome: Outcome)
    requires |marks| == |columns|
    ensures outcome == Verdict(name, course, columns, marks, withPercentage)
  {
    var valid := ValidCount(marks);
    var summary := Summary(columns, marks);
    if valid == 0 {
      return Failed(Rejected(name, course, NoValidDays, summary));
    }
    var present := PresentCount(marks);
    var percent := (present as real / valid as real) * 100.0;
    PassThreshold(present, valid);
    if percent >= PassPercent {
      var completion := FormatDate(columns[|columns| - 1]);
      var certificateCourse := CertificateCourse(course);
      var capitalized := CapitalizeName(Some(name));
      var percentage := if withPercentage then Some(PercentText(present, valid)) else None;
      outcome := Passed(Approved(capitalized, name, certificateCourse, course, completion, summary, percentage));
    } else {
      outcome := Failed(Rejected(name, course, "Presença insuficiente (" + PercentText(present, valid) + ")", summary));
    }
  }

  /** Filing one outcome extends each list by what that outcome adds. */
  lemma Filed(os: seq<Outcome>, o: Outcome)
    ensures Approvals(os + [o]) == Approvals(os) + (if o.Passed? then [o.approved] else [])
    ensures Rejections(os + [o]) == Rejections(os) + (if o.Failed? then [o.rejected] else [])
    ensures Anomalies(os + [o]) == Anomalies(os) + (if o.Anomalous? then [o.anomaly] else [])
  {
    assert (os + [o])[..|os|] == os;
  }

  /** One iteration of the row loop: row `k` judged and filed. */
  method ProcessRow(sheet: Sheet, columns: seq<string>, k: nat, withPercentage: bool,
                    approved: seq<Approved>, rejected: seq<Rejected>, anomalies: seq<Anomaly>)
      returns (approved': seq<Approved>, rejected': seq<Rejected>, anomalies': seq<Anomaly>)
    requires WellFormed(sheet) && k < |sheet.rows| && columns == DateColumns(sheet.columns)
    requires approved == Approvals(Outcomes(sheet, k, withPercentage))
    requires rejected == Rejections(Outcomes(sheet, k, withPercentage))
    requires anomalies == Anomalies(Outcomes(sheet, k, withPercentage))
    ensures approved' == Approvals(Outcomes(sheet, k + 1, withPercentage))
    ensures rejected' == Rejections(Outcomes(sheet, k + 1, withPercentage))
    ensures anomalies' == Anomalies(Outcomes(sheet, k + 1, withPercentage))
  {
    var outcome := JudgeRow(sheet, columns, k, withPercentage);
    Filed(Outcomes(sheet, k, withPercentage), outcome);
    approved', rejected', anomalies' := approved, rejected, anomalies;
    match outcome {
      case Anomalous(a) => anomalies' := anomalies + [a];
      case Failed(r) => rejected' := rejected + [r];
      case Passed(a) => approved' := approved + [a];
    }
  }

  /** `processar_frequencia_pandas` once the sheet is read: the approved, the
      rejected and the anomalous rows, each in row order, and the number of
      rows. `withPercentage` selects the earlier revision, which also stores
      PORCENTAGEM_PRESENCA. */
  method ProcessAttendance(sheet: Sheet, withPercentage: bool)
      returns (approved: seq<Approved>, rejected: seq<Rejected>, anomalies: seq<Anomaly>, total: nat)
    requires WellFormed(sheet)
    ensures total == |sheet.rows|
    ensures approved == Approvals(Outcomes(sheet, |sheet.rows|, withPercentage))
    ensures rejected == Rejections(Outcomes(sheet, |sheet.rows|, withPercentage))
    ensures anomalies == Anomalies(Outcomes(sheet, |sheet.rows|, withPercentage))
  {
    total := |sheet.rows|;
    var columns := DateColumns(sheet.columns);
    approved, rejected, anomalies := [], [], [];
    var k := 0;
    while k < |sheet.rows|
      invariant 0 <= k <= |sheet.rows|
      invariant approved == Approvals(Outcomes(sheet, k, withPercentage))
      invariant rejected == Rejections(Outcomes(sheet, k, withPercentage))
      invariant anomalies == Anomalies(Outcomes(sheet, k, withPercentage))
    {
      approved, rejected, anomalies := ProcessRow(sheet, columns, k, withPercentage, approved, rejected, anomalies);
      k := k + 1;
    }
  }

  /** Every row ends up in exactly one of the three lists. */
  lemma {:induction false} OutcomesPartition(os: seq<Outcome>)
    ensures |Approvals(os)| + |Rejections(os)| + |Anomalies(os)| == |os|
  {
    if os != [] {
      OutcomesPartition(os[..|os| - 1]);
    }
  }

  /** The presence test on exact values is an integer test: p/v >= 60% iff
      5p >= 3v. */
  lemma PassThreshold(present: nat, valid: nat)
    requires valid > 0
    ensures Percent(present, valid) >= PassPercent <==> Passes(present, valid)
  {
    var p, v := present as real, valid as real;
    var x := p / v;
    assert x * v == p;
    assert Percent(present, valid) == x * 100.0;
    assert x * 100.0 >= PassPercent <==> x >= 0.6;
    ScaleByPositive(x, 0.6, v);
    assert x >= 0.6 <==> p >= 0.6 * v;
    assert 5 * present >= 3 * valid <==> 5.0 * p >= 3.0 * v;
  }

  lemma ScaleByPositive(a: real, b: real, c: real)
    requires c > 0.0
    ensures a >= b <==> a * c >= b * c
  {
    assert a * c - b * c == (a - b) * c;
  }

  /** There are at most five class days, so at most five valid days. */
  lemma ValidDaysBounded(sheet: Sheet, k: nat)
    requires WellFormed(sheet) && k < |sheet.rows|
    ensures var columns := DateColumns(sheet.columns);
      ValidCount(Marks(sheet.rows[k], columns)) <= DateColumnCount
  {
  }

  /** A row is an anomaly exactly when its name or its course is missing or
      empty, and the anomaly records the row's position. */
  lemma AnomalyRule(sheet: Sheet, k: nat, withPercentage: bool)
    requires WellFormed(sheet) && k < |sheet.rows|
    ensures var row := sheet.rows[k];
      Judge(sheet, k, withPercentage).Anomalous? <==> CellText(row[NameColumn]) == "" || CellText(row[CourseColumn]) == ""
    ensures Judge(sheet, k, withPercentage).Anomalous? ==> Judge(sheet, k, withPercentage).anomaly.index == k
  {
    JudgeVerdict(sheet, k, withPercentage);
  }

  /** A row is approved exactly when it has a name and a course, at least one
      valid day and presence on at least 60% of the valid days. */
  lemma ApprovalRule(sheet: Sheet, k: nat, withPercentage: bool)
    requires WellFormed(sheet) && k < |sheet.rows|
    ensures var row := sheet.rows[k];
      var marks := Marks(row, DateColumns(sheet.columns));
      Judge(sheet, k, withPercentage).Passed? <==>
        && CellText(row[NameColumn]) != "" && CellText(row[CourseColumn]) != ""
        && ValidCount(marks) > 0
        && 5 * PresentCount(marks) >= 3 * ValidCount(marks)
  {
    JudgeVerdict(sheet, k, withPercentage);
  }

  /** The approved record of a row: its name capitalised, its course as the
      certificate writes it, the last date column written out, and the
      percentage exactly in the earlier revision. */
  predicate ApprovedShape(a: Approved, withPercentage: bool) {
    && a.originalName != "" && a.originalCourse != ""
    && a.name == Capitalized(a.originalName)
    && a.course == CertificateCourse(a.originalCourse)
    && a.percentage.Some? == withPercentage
  }

  /** What the approved record of a name, a course and its marks holds:
      NOME and CURSO derived from the sheet's texts, NOME_ORIGINAL and
      CURSO_ORIGINAL as the sheet has them, the last date column written out,
      the attendance summary and, in the earlier revision, the one-decimal
      percentage of the valid days (of which there is at least one). */
  predicate ApprovedFrom(a: Approved, name: string, course: string, columns: seq<string>, marks: seq<string>, withPercentage: bool)
    requires |marks| == |columns|
  {
    && columns != []
    && a.name == Capitalized(name) && a.originalName == name
    && a.course == CertificateCourse(course) && a.originalCourse == course
    && a.completion == FormatDate(columns[|columns| - 1])
    && a.attendance == Summary(columns, marks)
    && ValidCount(marks) > 0
    && a.percentage == (if withPercentage then Some(PercentText(PresentCount(marks), ValidCount(marks))) else None)
  }

  /** `a` is the approved record of row `k`, built from that row's cells. */
  predicate ApprovedRow(sheet: Sheet, k: nat, withPercentage: bool, a: Approved)
    requires WellFormed(sheet) && k < |sheet.rows|
  {
    var row := sheet.rows[k];
    var columns := DateColumns(sheet.columns);
    ApprovedFrom(a, CellText(row[NameColumn]), CellText(row[CourseColumn]), columns, Marks(row, columns), withPercentage)
  }

  lemma JudgeShape(sheet: Sheet, k: nat, withPercentage: bool)
    requires WellFormed(sheet) && k < |sheet.rows|
    ensures var o := Judge(sheet, k, withPercentage);
      o.Passed? ==> ApprovedShape(o.approved, withPercentage) && ApprovedRow(sheet, k, withPercentage, o.approved)
  {
    JudgeVerdict(sheet, k, withPercentage);
  }

  /** Every approved record has the shape above and is the record of one of
      the rows judged. */
  lemma {:induction false} ApprovalsShape(sheet: Sheet, n: nat, withPercentage: bool)
    requires WellFormed(sheet) && n <= |sheet.rows|
    ensures forall a :: a in Approvals(Outcomes(sheet, n, withPercentage)) ==>
      && ApprovedShape(a, withPercentage)
      && exists k :: 0 <= k < n && Judge(sheet, k, withPercentage) == Passed(a) && ApprovedRow(sheet, k, withPercentage, a)
  {
    if n > 0 {
      ApprovalsShape(sheet, n - 1, withPercentage);
      JudgeShape(sheet, n - 1, withPercentage);
      ShapedSnoc(sheet, n - 1, withPercentage);
    }
  }

  lemma ShapedSnoc(sheet: Sheet, m: nat, withPercentage: bool)
    requires WellFormed(sheet) && m < |sheet.rows|
    requires forall a :: a in Approvals(Outcomes(sheet, m, withPercentage)) ==>
      && ApprovedShape(a, withPercentage)
      && exists k :: 0 <= k < m && Judge(sheet, k, withPercentage) == Passed(a) && ApprovedRow(sheet, k, withPercentage, a)
    requires var o := Judge(sheet, m, withPercentage);
      o.Passed? ==> ApprovedShape(o.approved, withPercentage) && ApprovedRow(sheet, m, withPercentage, o.approved)
    ensures forall a :: a in Approvals(Outcomes(sheet, m + 1, withPercentage)) ==>
      && ApprovedShape(a, withPercentage)
      && exists k :: 0 <= k < m + 1 && Judge(sheet, k, withPercentage) == Passed(a) && ApprovedRow(sheet, k, withPercentage, a)
  {
    var o := Judge(sheet, m, withPercentage);
    Filed(Outcomes(sheet, m, withPercentage), o);
    forall a | a in Approvals(Outcomes(sheet, m + 1, withPercentage))
      ensures exists k :: 0 <= k < m + 1 && Judge(sheet, k, withPercentage) == Passed(a) && ApprovedRow(sheet, k, withPercentage, a)
    {
      if a !in Approvals(Outcomes(sheet, m, withPercentage)) {
        assert o.Passed? && a == o.approved;
        assert Judge(sheet, m, withPercentage) == Passed(a);
      }
    }
  }

  /** An approved student's completion date is the last date column's header
      written out by `formatar_data`. */
  lemma ApprovedCompletion(sheet: Sheet, k: nat, withPercentage: bool)
    requires WellFormed(sheet) && k < |sheet.rows|
    requires Judge(sheet, k, withPercentage).Passed?
    ensures Judge(sheet, k, withPercentage).approved.completion == FormatDate(sheet.columns[|sheet.columns| - 1])
  {
    JudgeVerdict(sheet, k, withPercentage);
  }

  /** The verdict on a row with a name and a course: never an anomaly;
      approval exactly at 60% of at least one valid day; an approved record
      of the shape above that holds the sheet's name, course, summary and
      percentage, completed on the last date column. */
  lemma VerdictFacts(name: string, course: string, columns: seq<string>, marks: seq<string>, withPercentage: bool)
    requires |marks| == |columns| && name != "" && course != ""
    ensures var v := Verdict(name, course, columns, marks, withPercentage);
      && !v.Anomalous?
      && (v.Passed? <==> ValidCount(marks) > 0 && 5 * PresentCount(marks) >= 3 * ValidCount(marks))
      && (v.Passed? ==> ApprovedShape(v.approved, withPercentage))
      && (v.Passed? ==> ApprovedFrom(v.approved, name, course, columns, marks, withPercentage))
  {
    VerdictRule(name, course, columns, marks, withPercentage);
    VerdictRecord(name, course, columns, marks, withPercentage);
  }

  /** The verdict on a named row: never an anomaly; approval exactly at 60%
      of at least one valid day, with the record of that name, course and
      marks; otherwise a rejection of the name and course as the sheet has
      them, for want of valid days or with the one-decimal percentage. */
  lemma VerdictRule(name: string, course: string, columns: seq<string>, marks: seq<string>, withPercentage: bool)
    requires |marks| == |columns|
    ensures var v := Verdict(name, course, columns, marks, withPercentage);
      && !v.Anomalous?
      && (v.Passed? <==> ValidCount(marks) > 0 && 5 * PresentCount(marks) >= 3 * ValidCount(marks))
      && (v.Passed? ==> ApprovedFrom(v.approved, name, course, columns, marks, withPercentage))
      && (ValidCount(marks) == 0 ==>
            v == Failed(Rejected(name, course, NoValidDays, Summary(columns, marks))))
      && (ValidCount(marks) > 0 && 5 * PresentCount(marks) < 3 * ValidCount(marks) ==>
            v == Failed(Rejected(name, course,
                   "Presença insuficiente (" + PercentText(PresentCount(marks), ValidCount(marks)) + ")",
                   Summary(columns, marks))))
  {
    var valid, present := ValidCount(marks), PresentCount(marks);
    var v := Verdict(name, course, columns, marks, withPercentage);
    if valid == 0 {
      assert v.Failed?;
    } else if Passes(present, valid) {
      assert v.Passed?;
    } else {
      assert v.Failed?;
    }
  }

  lemma VerdictRecord(name: string, course: string, columns: seq<string>, marks: seq<string>, withPercentage: bool)
    requires |marks| == |columns| && name != "" && course != ""
    ensures var v := Verdict(name, course, columns, marks, withPercentage);
      v.Passed? ==>
        && ApprovedShape(v.approved, withPercentage)
        && ApprovedFrom(v.approved, name, course, columns, marks, withPercentage)
  {
  }

  /** Row `k` judged through the verdict on its marks. */
  lemma JudgeVerdict(sheet: Sheet, k: nat, withPercentage: bool)
    requires WellFormed(sheet) && k < |sheet.rows|
    ensures var row := sheet.rows[k];
      var name := CellText(row[NameColumn]);
      var course := CellText(row[CourseColumn]);
      var columns := DateColumns(sheet.columns);
      var marks := Marks(row, columns);
      && (name == "" || course == "" ==> Judge(sheet, k, withPercentage) == Anomalous(Anomaly(k, MissingData, "Nome: '" + name + "', Curso: '" + course + "'")))
      && (name != "" && course != "" ==> Judge(sheet, k, withPercentage) == Verdict(name, course, columns, marks, withPercentage))
      && (name != "" && course != "" ==> |sheet.columns| > 0 && columns[|columns| - 1] == sheet.columns[|sheet.columns| - 1])
      && (name != "" && course != "" ==> var v := Verdict(name, course, columns, marks, withPercentage);
            && !v.Anomalous?
            && (v.Passed? <==> ValidCount(marks) > 0 && 5 * PresentCount(marks) >= 3 * ValidCount(marks))
            && (v.Passed? ==> ApprovedShape(v.approved, withPercentage))
            && (v.Passed? ==> ApprovedFrom(v.approved, name, course, columns, marks, withPercentage)))
  {
    var row := sheet.rows[k];
    var name := CellText(row[NameColumn]);
    var course := CellText(row[CourseColumn]);
    if name != "" && course != "" {
      var columns := DateColumns(sheet.columns);
      VerdictFacts(name, course, columns, Marks(row, columns), withPercentage);
    }
  }

  /** `ordenar_por_nome`, the key the rejected students are listed by: the
      name in lower case. */
  function SortKey(r: Rejected): (k: string)
    ensures |k| == |r.name| && forall i :: 0 <= i < |k| ==> k[i] == Lower(r.name[i])
  {
    LowerStr(r.name)
  }

  /** Names that differ only in case get the same key, and the key of a
      lower-case name is the name itself. */
  lemma SortKeyIgnoresCase(r1: Rejected, r2: Rejected)
    requires |r1.name| == |r2.name|
    requires forall i :: 0 <= i < |r1.name| ==> Lower(r1.name[i]) == Lower(r2.name[i])
    ensures SortKey(r1) == SortKey(r2)
    ensures IsLowered(r1.name) ==> SortKey(r1) == r1.name
  {
  }
}
