/** The linkage of approved students to their enrollment-form rows
    (`processar_inscricao_pandas` once the form has been read): for each
    approved student, the enrollment row whose name is similar and whose
    course corresponds, or failing that the row found by the name search
    alone, becomes one output record; a student and course already linked
    is skipped; per-course tallies count the students seen and the students
    linked; and the students left without a record are listed. */
module Linkage {
  import opened Text
  import opened Numbers
  import opened Normalization
  import opened Capitalization
  import opened Similarity
  import opened Courses
  import opened BestMatch
  import Attendance

  type Approved = Attendance.Approved

  /** A value of an output record: text, or the integer that the birth day,
      the birth year and the age are converted to when they read as one. */
  datatype Value = Str(text: string) | Int(number: int)

  /** The fields of an output record. */
  datatype Field =
    | DataAdesao | Estado | Escola | Nome | Curso | Telefone | Email | Cpf
    | Dia | Mes | Ano | Idade | CorPele | Sexo | SerieEscolar | DataConclusao
    | PorcentagemPresenca

  /** The column header each field is written under. */
  function FieldName(f: Field): string {
    match f
    case DataAdesao => "DATA_ADESAO"
    case Estado => "ESTADO"
    case Escola => "ESCOLA"
    case Nome => "NOME"
    case Curso => "CURSO"
    case Telefone => "TELEFONE"
    case Email => "EMAIL"
    case Cpf => "CPF"
    case Dia => "DIA"
    case Mes => "MES"
    case Ano => "ANO"
    case Idade => "IDADE"
    case CorPele => "COR_PELE"
    case Sexo => "SEXO"
    case SerieEscolar => "SERIE_ESCOLAR"
    case DataConclusao => "DATA_CONCLUSAO"
    case PorcentagemPresenca => "PORCENTAGEM_PRESENCA"
  }

  /** An output record: field to value. */
  type Record = map<Field, Value>

  const CourseColumn := "Para qual curso você quer se inscrever?"
  const StampColumn := "Carimbo de data/hora"

  /** The fields of every output record, in output order. */
  const BaseFields: seq<Field> := [
    DataAdesao, Estado, Escola, Nome, Curso, Telefone, Email, Cpf,
    Dia, Mes, Ano, Idade, CorPele, Sexo, SerieEscolar, DataConclusao]

  /** The fields of the output records; the earlier revision of the
      pipeline also writes the attendance percentage. */
  function FinalFields(withPercentage: bool): seq<Field> {
    if withPercentage then BaseFields + [PorcentagemPresenca] else BaseFields
  }

  /** The enrollment column each field is copied from; the course, the
      completion date and the percentage come from the attendance sheet. */
  function Column(f: Field): string {
    match f
    case DataAdesao => "Carimbo de data/hora"
    case Estado => "Estado"
    case Escola => "Escreva o nome da Unidade de Ensino que você frequenta atualmente:"
    case Nome => "Nome completo"
    case Telefone => "Telefone celular do ALUNO (que use WHATSAPP)"
    case Email => "E-mail"
    case Cpf => "CPF"
    case Dia => "Data de Nascimento (DIA)"
    case Mes => "Data de Nascimento (MÊS)"
    case Ano => "Data de Nascimento (ANO)"
    case Idade => "Idade"
    case CorPele => "Cor da pele / Raça / Etnia"
    case Sexo => "Sexo"
    case SerieEscolar => "Qual nível ou série escolar você está frequentando atualmente?"
    case _ => ""
  }

  /** The fields copied from the enrollment form, in copying order (the
      order of the column-to-field table). */
  const CopyOrder: seq<Field> := [
    DataAdesao, Estado, Escola, Nome, Telefone, Email, Cpf,
    Dia, Mes, Ano, Idade, CorPele, Sexo, SerieEscolar]

  /** The fields converted with int(float(...)) when that succeeds. */
  predicate IsNumeric(f: Field) {
    f == Dia || f == Ano || f == Idade
  }

  // ---------------------------------------------------------------------
  // Output records

  /** The column is there and its value is not missing. */
  predicate Present(row: Row, column: string) {
    column in row && row[column].Some?
  }

  /** The value an enrollment cell `v` gives `field`: the approved student's
      name for the name, the stripped, upper-cased text for a non-empty
      state, an integer for the birth day, birth year and age when `toInt`
      reads one, and the text itself otherwise. `toInt` stands for
      int(float(...)), None where that raises. */
  function Converted(field: Field, v: string, a: Approved, toInt: string -> Option<int>): Value {
    if field == Nome then Str(a.name)
    else if field == Estado && v != "" then Str(UpperStr(Strip(v)))
    else if IsNumeric(field) then
      match toInt(v)
      case Some(n) => Int(n)
      case None => Str(v)
    else Str(v)
  }

  /** What the first `j` entries of the field table `table` write into
      `field`: the value from the last of them that names the field and whose
      column is present, if any. */
  function Copied(table: seq<Field>, a: Approved, row: Row, toInt: string -> Option<int>, j: nat, field: Field): Option<Value>
    requires j <= |table|
  {
    if j == 0 then None
    else
      var f := table[j - 1];
      if f == field && Present(row, Column(f)) then Some(Converted(field, row[Column(f)].value, a, toInt))
      else Copied(table, a, row, toInt, j - 1, field)
  }

  /** The final value of one field of the record: the completion date and
      the certificate course from the attendance sheet, the percentage in
      the earlier revision, the copied value otherwise ("" when nothing was
      copied), and a non-empty name capitalised once more. */
  function FinalValue(table: seq<Field>, a: Approved, row: Row, withPercentage: bool, toInt: string -> Option<int>, field: Field): Value {
    if field == DataConclusao then Str(a.completion)
    else if field == Curso then Str(a.course)
    else if withPercentage && field == PorcentagemPresenca then Str(a.percentage.GetOr(""))
    else
      var v := Copied(table, a, row, toInt, |table|, field).GetOr(Str(""));
      if field == Nome && v.Str? && v.text != "" then Str(Capitalized(v.text)) else v
  }

  /** The record with fields `fields` filled through `table`. */
  function RecordOver(fields: seq<Field>, table: seq<Field>, a: Approved, row: Row, withPercentage: bool, toInt: string -> Option<int>): Record {
    map f | f in fields :: FinalValue(table, a, row, withPercentage, toInt, f)
  }

  /** The record written for an approved student linked to `row`. */
  function RecordFor(a: Approved, row: Row, withPercentage: bool, toInt: string -> Option<int>): Record {
    RecordOver(FinalFields(withPercentage), CopyOrder, a, row, withPercentage, toInt)
  }

  /** The tables fit together: every field the table writes is an output
      field, and so are the name, the course, the completion date and, in
      the earlier revision, the percentage. */
  predicate TablesFit(fields: seq<Field>, table: seq<Field>, withPercentage: bool) {
    && (forall m :: 0 <= m < |table| ==> table[m] in fields)
    && Nome in fields && Curso in fields && DataConclusao in fields
    && (withPercentage ==> PorcentagemPresenca in fields)
  }

  /** Every field set to "". */
  method BlankRecord(fields: seq<Field>) returns (record: Record)
    ensures record.Keys == set f | f in fields
    ensures forall f :: f in record ==> record[f] == Str("")
  {
    record := map[];
    for i := 0 to |fields|
      invariant record.Keys == set f | f in fields[..i]
      invariant forall f :: f in record ==> record[f] == Str("")
    {
      assert fields[..i + 1] == fields[..i] + [fields[i]];
      record := record[fields[i] := Str("")];
    }
    assert fields[..|fields|] == fields;
  }

  /** The present enrollment cells copied, converted, through the table. */
  method CopyCells(table: seq<Field>, a: Approved, row: Row, toInt: string -> Option<int>, blank: Record)
    returns (record: Record)
    requires forall m :: 0 <= m < |table| ==> table[m] in blank
    requires forall f :: f in blank ==> blank[f] == Str("")
    ensures record.Keys == blank.Keys
    ensures forall f :: f in record ==> record[f] == Copied(table, a, row, toInt, |table|, f).GetOr(Str(""))
  {
    record := blank;
    for j := 0 to |table|
      invariant record.Keys == blank.Keys
      invariant forall f :: f in record ==> record[f] == Copied(table, a, row, toInt, j, f).GetOr(Str(""))
    {
      var target := table[j];
      var column := Column(target);
      if column in row && row[column].Some? {
        var value := ConvertCell(target, row[column].value, a, toInt);
        record := record[target := value];
      }
    }
  }

  /** The conversion of one present cell. */
  method ConvertCell(target: Field, v: string, a: Approved, toInt: string -> Option<int>) returns (value: Value)
    ensures value == Converted(target, v, a, toInt)
  {
    value := Str(v);
    if target == Nome {
      value := Str(a.name);
    } else if target == Estado && v != "" {
      value := Str(UpperStr(Strip(v)));
    } else if target == Dia || target == Ano || target == Idade {
      match toInt(v)
      case Some(n) => value := Int(n);
      case None =>
    }
  }

  /** The completion date and the course set, and in the earlier revision
      the percentage; nothing else changes. */
  method SetSheetFields(record0: Record, a: Approved, withPercentage: bool) returns (record: Record)
    ensures forall f :: f in record <==> f in record0 || f == DataConclusao || f == Curso || (withPercentage && f == PorcentagemPresenca)
    ensures record[DataConclusao] == Str(a.completion) && record[Curso] == Str(a.course)
    ensures withPercentage ==> record[PorcentagemPresenca] == Str(a.percentage.GetOr(""))
    ensures forall f :: f in record0 && f != DataConclusao && f != Curso && !(withPercentage && f == PorcentagemPresenca) ==>
      record[f] == record0[f]
  {
    record := record0[DataConclusao := Str(a.completion)];
    record := record[Curso := Str(a.course)];
    if withPercentage {
      record := record[PorcentagemPresenca := Str(a.percentage.GetOr(""))];
    }
  }

  /** A non-empty name capitalised; nothing else changes. */
  method CapitalizeField(record0: Record) returns (record: Record)
    requires Nome in record0
    ensures forall f :: f in record <==> f in record0
    ensures var v := record0[Nome];
      record[Nome] == if v.Str? && v.text != "" then Str(Capitalized(v.text)) else v
    ensures forall f :: f in record0 && f != Nome ==> record[f] == record0[f]
  {
    record := record0;
    var name := record[Nome];
    if name.Str? && name.text != "" {
      var capitalized := CapitalizeName(Some(name.text));
      record := record[Nome := Str(capitalized)];
    }
  }

  /** The record-building part of `processar_inscricao_pandas`: every field
      set to "", the present enrollment cells copied through the field table,
      the completion date, the course (and the percentage) set, and a
      non-empty name capitalised. */
  method FillRecord(fields: seq<Field>, table: seq<Field>, a: Approved, row: Row, withPercentage: bool, toInt: string -> Option<int>)
    returns (record: Record)
    requires TablesFit(fields, table, withPercentage)
    ensures record == RecordOver(fields, table, a, row, withPercentage, toInt)
  {
    var blank := BlankRecord(fields);
    var copied := CopyCells(table, a, row, toInt, blank);
    var dated := SetSheetFields(copied, a, withPercentage);
    record := CapitalizeField(dated);
    RecordAssembled(fields, table, a, row, withPercentage, toInt, copied, dated, record);
  }

  /** The record written for a linked student, through the field table of
      the pipeline. */
  method BuildRecord(a: Approved, row: Row, withPercentage: bool, toInt: string -> Option<int>) returns (record: Record)
    ensures record == RecordFor(a, row, withPercentage, toInt)
  {
    FieldTable(withPercentage);
    record := FillRecord(FinalFields(withPercentage), CopyOrder, a, row, withPercentage, toInt);
  }

  /** The three stages give the record of the student. */
  lemma RecordAssembled(fields: seq<Field>, table: seq<Field>, a: Approved, row: Row, withPercentage: bool, toInt: string -> Option<int>,
                        copied: Record, dated: Record, record: Record)
    requires TablesFit(fields, table, withPercentage)
    requires forall f :: f in copied <==> f in fields
    requires forall f :: f in copied ==> copied[f] == Copied(table, a, row, toInt, |table|, f).GetOr(Str(""))
    requires forall f :: f in dated <==> f in copied || f == DataConclusao || f == Curso || (withPercentage && f == PorcentagemPresenca)
    requires dated[DataConclusao] == Str(a.completion) && dated[Curso] == Str(a.course)
    requires withPercentage ==> dated[PorcentagemPresenca] == Str(a.percentage.GetOr(""))
    requires forall f :: f in copied && f != DataConclusao && f != Curso && !(withPercentage && f == PorcentagemPresenca) ==>
      dated[f] == copied[f]
    requires forall f :: f in record <==> f in dated
    requires var v := dated[Nome]; record[Nome] == if v.Str? && v.text != "" then Str(Capitalized(v.text)) else v
    requires forall f :: f in dated && f != Nome ==> record[f] == dated[f]
    ensures record == RecordOver(fields, table, a, row, withPercentage, toInt)
  {
    forall f | f in record
      ensures record[f] == FinalValue(table, a, row, withPercentage, toInt, f)
    {
      assert f in copied;
      var sheet := f == DataConclusao || f == Curso || (withPercentage && f == PorcentagemPresenca);
      if !sheet {
        assert dated[f] == copied[f];
      }
      AssembledValue(table, a, row, withPercentage, toInt, f, copied[f], dated[f], record[f]);
    }
    RecordsEqual(record, RecordOver(fields, table, a, row, withPercentage, toInt));
  }

  /** One field through the three stages. */
  lemma AssembledValue(table: seq<Field>, a: Approved, row: Row, withPercentage: bool, toInt: string -> Option<int>, f: Field,
                       copied: Value, dated: Value, final: Value)
    requires copied == Copied(table, a, row, toInt, |table|, f).GetOr(Str(""))
    requires dated == if f == DataConclusao then Str(a.completion)
                      else if f == Curso then Str(a.course)
                      else if withPercentage && f == PorcentagemPresenca then Str(a.percentage.GetOr(""))
                      else copied
    requires final == if f == Nome && dated.Str? && dated.text != "" then Str(Capitalized(dated.text)) else dated
    ensures final == FinalValue(table, a, row, withPercentage, toInt, f)
  {
  }

  /** Two records with the same fields and the same values are equal. */
  lemma RecordsEqual(r1: Record, r2: Record)
    requires forall f :: f in r1 <==> f in r2
    requires forall f :: f in r1 ==> r1[f] == r2[f]
    ensures r1 == r2
  {
  }

  /** No two entries of a table write the same field. */
  predicate TargetsDistinct(table: seq<Field>) {
    forall m1, m2 :: 0 <= m1 < m2 < |table| ==> table[m1] != table[m2]
  }

  /** The table writes none of the fields set from the attendance sheet. */
  predicate LeavesSheetFields(table: seq<Field>) {
    forall m :: 0 <= m < |table| ==>
      table[m] != Curso && table[m] != DataConclusao && table[m] != PorcentagemPresenca
  }

  /** The position of a field in the copying order, -1 for the fields the
      form does not fill. */
  function CopyPosition(f: Field): int {
    match f
    case DataAdesao => 0
    case Estado => 1
    case Escola => 2
    case Nome => 3
    case Telefone => 4
    case Email => 5
    case Cpf => 6
    case Dia => 7
    case Mes => 8
    case Ano => 9
    case Idade => 10
    case CorPele => 11
    case Sexo => 12
    case SerieEscolar => 13
    case _ => -1
  }

  lemma CopyOrderPositions()
    ensures forall m :: 0 <= m < |CopyOrder| ==> CopyPosition(CopyOrder[m]) == m
  {
  }

  /** The copying order is the output order without the course and the
      completion date. */
  lemma CopyOrderInBase()
    ensures forall m :: 0 <= m < |CopyOrder| ==> CopyOrder[m] == BaseFields[if m < 4 then m else m + 1]
  {
  }

  /** The two field tables of the pipeline fit, in both revisions. */
  lemma FieldTable(withPercentage: bool)
    ensures TablesFit(FinalFields(withPercentage), CopyOrder, withPercentage)
    ensures TargetsDistinct(CopyOrder) && LeavesSheetFields(CopyOrder)
    ensures CopyOrder[3] == Nome && Column(Nome) == NameColumn
  {
    CopyOrderPositions();
    CopyOrderInBase();
    var fields := FinalFields(withPercentage);
    assert forall i :: 0 <= i < |BaseFields| ==> fields[i] == BaseFields[i];
    assert fields[3] == Nome && fields[4] == Curso && fields[15] == DataConclusao;
    if withPercentage {
      assert fields[16] == PorcentagemPresenca;
    }
  }

  /** Entries that do not name a field write nothing into it. */
  lemma {:induction false} CopiedNothing(table: seq<Field>, a: Approved, row: Row, toInt: string -> Option<int>, j: nat, field: Field)
    requires j <= |table|
    requires forall m :: 0 <= m < j ==> table[m] != field
    ensures Copied(table, a, row, toInt, j, field) == None
  {
    if j > 0 {
      CopiedNothing(table, a, row, toInt, j - 1, field);
    }
  }

  /** Entries after the one that names a field leave it as that entry wrote
      it. */
  lemma {:induction false} CopiedLater(table: seq<Field>, a: Approved, row: Row, toInt: string -> Option<int>, j: nat, m: nat)
    requires m < j <= |table|
    requires forall k :: m < k < j ==> table[k] != table[m]
    ensures Copied(table, a, row, toInt, j, table[m]) == Copied(table, a, row, toInt, m + 1, table[m])
  {
    if j > m + 1 {
      CopiedLater(table, a, row, toInt, j - 1, m);
    }
  }

  lemma CapitalizedEmpty()
    ensures Capitalized("") == ""
  {
    assert LowerStr("") == "";
    assert Words("") == [];
  }

  /** A field the table writes holds the converted cell of its column when
      that cell is present, and "" otherwise; a name is capitalised. */
  lemma RecordEntry(fields: seq<Field>, table: seq<Field>, a: Approved, row: Row, withPercentage: bool, toInt: string -> Option<int>, m: nat)
    requires TablesFit(fields, table, withPercentage) && TargetsDistinct(table) && LeavesSheetFields(table)
    requires m < |table|
    ensures var field := table[m]; var column := Column(field);
      RecordOver(fields, table, a, row, withPercentage, toInt)[field]
        == if !Present(row, column) then Str("")
           else if field == Nome then Str(Capitalized(a.name))
           else Converted(field, row[column].value, a, toInt)
  {
    var field := table[m];
    CopiedLater(table, a, row, toInt, |table|, m);
    CopiedNothing(table, a, row, toInt, m, field);
    CapitalizedEmpty();
  }

  /** The fields set from the attendance sheet. */
  lemma RecordSheetFields(a: Approved, row: Row, withPercentage: bool, toInt: string -> Option<int>)
    ensures var r := RecordFor(a, row, withPercentage, toInt);
      && (forall f :: f in r <==> f in FinalFields(withPercentage))
      && Curso in r && r[Curso] == Str(a.course)
      && DataConclusao in r && r[DataConclusao] == Str(a.completion)
      && (withPercentage ==> PorcentagemPresenca in r && r[PorcentagemPresenca] == Str(a.percentage.GetOr("")))
  {
    var fields := FinalFields(withPercentage);
    assert fields[4] == Curso && fields[15] == DataConclusao;
    if withPercentage {
      assert fields[16] == PorcentagemPresenca;
    }
  }

  /** The name: the capitalised student name when the form has one. */
  lemma RecordName(a: Approved, row: Row, withPercentage: bool, toInt: string -> Option<int>)
    ensures var r := RecordFor(a, row, withPercentage, toInt);
      Nome in r && r[Nome] == (if Present(row, NameColumn) then Str(Capitalized(a.name)) else Str(""))
  {
    FieldTable(withPercentage);
    RecordEntry(FinalFields(withPercentage), CopyOrder, a, row, withPercentage, toInt, 3);
  }

  /** Every other field of the copying order: the converted cell of its
      column when present, "" when the column is absent or the cell missing. */
  lemma RecordCopiedFields(a: Approved, row: Row, withPercentage: bool, toInt: string -> Option<int>)
    ensures var r := RecordFor(a, row, withPercentage, toInt);
      forall f :: f in CopyOrder && f != Nome ==>
        f in r && r[f] == if Present(row, Column(f)) then Converted(f, row[Column(f)].value, a, toInt) else Str("")
  {
    var fields, table := FinalFields(withPercentage), CopyOrder;
    FieldTable(withPercentage);
    forall f | f in table && f != Nome
      ensures f in RecordOver(fields, table, a, row, withPercentage, toInt)
      ensures RecordOver(fields, table, a, row, withPercentage, toInt)[f]
        == if Present(row, Column(f)) then Converted(f, row[Column(f)].value, a, toInt) else Str("")
    {
      var m :| 0 <= m < |table| && table[m] == f;
      RecordEntry(fields, table, a, row, withPercentage, toInt, m);
    }
  }

  /** For a student as the attendance pass approves them, the record's name
      is the capitalised attendance name, its course the certificate title
      of the attendance course, and in the earlier revision its percentage
      the one the attendance pass wrote. */
  lemma RecordOfApproved(a: Approved, row: Row, withPercentage: bool, toInt: string -> Option<int>)
    requires Attendance.ApprovedShape(a, withPercentage)
    ensures var r := RecordFor(a, row, withPercentage, toInt);
      && Nome in r && r[Nome] == (if Present(row, NameColumn) then Str(Capitalized(a.originalName)) else Str(""))
      && Curso in r && r[Curso] == Str(CertificateCourse(a.originalCourse))
      && (withPercentage ==> PorcentagemPresenca in r && r[PorcentagemPresenca] == Str(a.percentage.value))
  {
    RecordSheetFields(a, row, withPercentage, toInt);
    RecordName(a, row, withPercentage, toInt);
    CapitalizedIdempotent(a.originalName);
  }

  // ---------------------------------------------------------------------
  // Candidates and their order

  /** A row kept as a candidate: its position, its name similarity and the
      text of its time stamp. */
  datatype Candidate = Candidate(index: nat, similarity: real, stamp: string)

  function CandidateOf(score: Row -> real, rows: seq<Row>, k: nat): Candidate
    requires k < |rows|
  {
    Candidate(k, score(rows[k]), CellText(rows[k], StampColumn))
  }

  /** The candidates among `rows`, in row order. */
  function Filtered(keep: Row -> bool, score: Row -> real, rows: seq<Row>): (cs: seq<Candidate>)
    ensures forall t :: 0 <= t < |cs| ==> cs[t].index < |rows|
  {
    if rows == [] then []
    else
      var n := |rows| - 1;
      Filtered(keep, score, rows[..n]) + (if keep(rows[n]) then [CandidateOf(score, rows, n)] else [])
  }

  /** The candidate loop: every row that `keep` accepts, with its score. */
  method CollectCandidates(keep: Row -> bool, score: Row -> real, rows: seq<Row>) returns (cs: seq<Candidate>)
    ensures cs == Filtered(keep, score, rows)
  {
    cs := [];
    for i := 0 to |rows|
      invariant cs == Filtered(keep, score, rows[..i])
    {
      var prefix := rows[..i + 1];
      assert prefix[..i] == rows[..i];
      if keep(rows[i]) {
        cs := cs + [CandidateOf(score, rows, i)];
      }
    }
    assert rows[..|rows|] == rows;
  }

  /** Every candidate is an accepted row with its own score and stamp. */
  lemma {:induction false} FilteredSound(keep: Row -> bool, score: Row -> real, rows: seq<Row>, t: nat)
    requires t < |Filtered(keep, score, rows)|
    ensures var c := Filtered(keep, score, rows)[t];
      keep(rows[c.index]) && c == CandidateOf(score, rows, c.index)
  {
    var n := |rows| - 1;
    var init := rows[..n];
    var prev := Filtered(keep, score, init);
    if t < |prev| {
      FilteredSound(keep, score, init, t);
      var k := prev[t].index;
      assert Filtered(keep, score, rows)[t] == prev[t];
      assert init[k] == rows[k];
    }
  }

  /** The candidates are in increasing row order. */
  lemma {:induction false} FilteredOrdered(keep: Row -> bool, score: Row -> real, rows: seq<Row>, t1: nat, t2: nat)
    requires t1 < t2 < |Filtered(keep, score, rows)|
    ensures Filtered(keep, score, rows)[t1].index < Filtered(keep, score, rows)[t2].index
  {
    var n := |rows| - 1;
    var init := rows[..n];
    var prev := Filtered(keep, score, init);
    var cs := Filtered(keep, score, rows);
    assert cs[t1] == prev[t1];
    if t2 < |prev| {
      FilteredOrdered(keep, score, init, t1, t2);
      assert cs[t2] == prev[t2];
    }
  }

  /** Without accepted rows there are no candidates. */
  lemma {:induction false} FilteredEmpty(keep: Row -> bool, score: Row -> real, rows: seq<Row>)
    requires forall k :: 0 <= k < |rows| ==> !keep(rows[k])
    ensures Filtered(keep, score, rows) == []
  {
    if rows != [] {
      var init := rows[..|rows| - 1];
      assert forall k :: 0 <= k < |init| ==> init[k] == rows[k];
      FilteredEmpty(keep, score, init);
    }
  }

  /** Every accepted row is a candidate. */
  lemma {:induction false} FilteredComplete(keep: Row -> bool, score: Row -> real, rows: seq<Row>, k: nat) returns (t: nat)
    requires k < |rows| && keep(rows[k])
    ensures t < |Filtered(keep, score, rows)| && Filtered(keep, score, rows)[t].index == k
  {
    var n := |rows| - 1;
    var init := rows[..n];
    var prev := Filtered(keep, score, init);
    if k < n {
      assert init[k] == rows[k];
      t := FilteredComplete(keep, score, init, k);
      assert Filtered(keep, score, rows)[t] == prev[t];
    } else {
      t := |prev|;
    }
  }

  /** Python's < on str: code points compared from the left, a proper prefix
      first. */
  predicate StrLess(a: string, b: string) {
    if a == [] then b != []
    else if b == [] then false
    else if a[0] != b[0] then a[0] < b[0]
    else StrLess(a[1..], b[1..])
  }

  lemma {:induction false} StrLessIrreflexive(a: string)
    ensures !StrLess(a, a)
  {
    if a != [] {
      StrLessIrreflexive(a[1..]);
    }
  }

  lemma {:induction false} StrLessTransitive(a: string, b: string, c: string)
    requires StrLess(a, b) && StrLess(b, c)
    ensures StrLess(a, c)
  {
    if a != [] && a[0] == b[0] && b[0] == c[0] {
      StrLessTransitive(a[1..], b[1..], c[1..]);
    }
  }

  lemma {:induction false} StrLessTotal(a: string, b: string)
    requires a != b
    ensures StrLess(a, b) || StrLess(b, a)
  {
    if a != [] && b != [] && a[0] == b[0] {
      HeadTail(a);
      HeadTail(b);
      StrLessTotal(a[1..], b[1..]);
    }
  }

  /** The sort key of a candidate, (similarity, stamp), compared as a
      Python tuple. */
  predicate KeyLess(c: Candidate, d: Candidate) {
    c.similarity < d.similarity || (c.similarity == d.similarity && StrLess(c.stamp, d.stamp))
  }

  lemma KeyLessIrreflexive(c: Candidate)
    ensures !KeyLess(c, c)
  {
    StrLessIrreflexive(c.stamp);
  }

  lemma KeyLessTransitive(c: Candidate, d: Candidate, e: Candidate)
    requires KeyLess(c, d) && KeyLess(d, e)
    ensures KeyLess(c, e)
  {
    if c.similarity == d.similarity == e.similarity {
      StrLessTransitive(c.stamp, d.stamp, e.stamp);
    }
  }

  /** What is not below `c` is below everything above `c`. */
  lemma KeyLessAbove(c: Candidate, d: Candidate, e: Candidate)
    requires !KeyLess(c, d) && KeyLess(c, e)
    ensures KeyLess(d, e)
  {
    if d.similarity == c.similarity && d.stamp != c.stamp {
      StrLessTotal(d.stamp, c.stamp);
      if c.similarity == e.similarity {
        StrLessTransitive(d.stamp, c.stamp, e.stamp);
      }
    }
  }

  /** The head of the candidates after a stable sort on the key in
      descending order: the first candidate whose key is the greatest. */
  function TopIndex(cs: seq<Candidate>): (t: nat)
    requires cs != []
    ensures t < |cs|
  {
    if |cs| == 1 then 0
    else
      var t := TopIndex(cs[..|cs| - 1]);
      if KeyLess(cs[t], cs[|cs| - 1]) then |cs| - 1 else t
  }

  /** No candidate has a greater key than the head, and every candidate
      before it has a smaller one. */
  lemma {:induction false} TopIndexSpec(cs: seq<Candidate>)
    requires cs != []
    ensures var t := TopIndex(cs);
      && (forall j :: 0 <= j < |cs| ==> !KeyLess(cs[t], cs[j]))
      && (forall j :: 0 <= j < t ==> KeyLess(cs[j], cs[t]))
  {
    if |cs| == 1 {
      KeyLessIrreflexive(cs[0]);
    } else {
      var n := |cs| - 1;
      var init := cs[..n];
      TopIndexSpec(init);
      var t := TopIndex(init);
      assert forall j :: 0 <= j < n ==> init[j] == cs[j];
      if KeyLess(cs[t], cs[n]) {
        forall j | 0 <= j < |cs| ensures !KeyLess(cs[n], cs[j]) {
          if j == n {
            KeyLessIrreflexive(cs[n]);
          } else if KeyLess(cs[n], cs[j]) {
            KeyLessTransitive(cs[t], cs[n], cs[j]);
            assert false;
          }
        }
        forall j | 0 <= j < n ensures KeyLess(cs[j], cs[n]) {
          if j < t {
            KeyLessTransitive(cs[j], cs[t], cs[n]);
          } else if j > t {
            KeyLessAbove(cs[t], cs[j], cs[n]);
          }
        }
      }
    }
  }

  /** Row `k` heads the sorted candidates: it is accepted, no accepted row
      has a greater key, and every accepted row before it has a smaller
      one. */
  predicate IsTop(keep: Row -> bool, score: Row -> real, rows: seq<Row>, k: nat) {
    && k < |rows| && keep(rows[k])
    && (forall j :: 0 <= j < |rows| && keep(rows[j]) ==>
          !KeyLess(CandidateOf(score, rows, k), CandidateOf(score, rows, j)))
    && (forall j :: 0 <= j < k && keep(rows[j]) ==>
          KeyLess(CandidateOf(score, rows, j), CandidateOf(score, rows, k)))
  }

  /** The head of the filtered candidates is the top row. */
  lemma FilteredTop(keep: Row -> bool, score: Row -> real, rows: seq<Row>)
    requires Filtered(keep, score, rows) != []
    ensures var cs := Filtered(keep, score, rows); IsTop(keep, score, rows, cs[TopIndex(cs)].index)
  {
    var cs := Filtered(keep, score, rows);
    TopIndexSpec(cs);
    var t := TopIndex(cs);
    var k := cs[t].index;
    FilteredSound(keep, score, rows, t);
    forall j | 0 <= j < |rows| && keep(rows[j])
      ensures !KeyLess(CandidateOf(score, rows, k), CandidateOf(score, rows, j))
      ensures j < k ==> KeyLess(CandidateOf(score, rows, j), CandidateOf(score, rows, k))
    {
      var u := FilteredComplete(keep, score, rows, j);
      FilteredSound(keep, score, rows, u);
      if u < t {
        FilteredOrdered(keep, score, rows, u, t);
      } else if t < u {
        FilteredOrdered(keep, score, rows, t, u);
      }
    }
  }

  /** At most one row is the top row. */
  lemma TopUnique(keep: Row -> bool, score: Row -> real, rows: seq<Row>, k1: nat, k2: nat)
    requires IsTop(keep, score, rows, k1) && IsTop(keep, score, rows, k2)
    ensures k1 == k2
  {
    var c1, c2 := CandidateOf(score, rows, k1), CandidateOf(score, rows, k2);
    assert !KeyLess(c1, c2) && !KeyLess(c2, c1);
  }

  /** The head of the sorted candidates when there are any, `fallback`
      otherwise. */
  function Pick(keep: Row -> bool, score: Row -> real, rows: seq<Row>, fallback: Option<nat>): (r: Option<nat>)
    requires fallback.Some? ==> fallback.value < |rows|
    ensures r.Some? ==> r.value < |rows|
  {
    var cs := Filtered(keep, score, rows);
    if cs != [] then Some(cs[TopIndex(cs)].index) else fallback
  }

  /** With an accepted row, the pick is the top row. */
  lemma PickAmongCandidates(keep: Row -> bool, score: Row -> real, rows: seq<Row>, fallback: Option<nat>, k: nat)
    requires fallback.Some? ==> fallback.value < |rows|
    requires k < |rows| && keep(rows[k])
    ensures var r := Pick(keep, score, rows, fallback); r.Some? && IsTop(keep, score, rows, r.value)
  {
    var t := FilteredComplete(keep, score, rows, k);
    FilteredTop(keep, score, rows);
  }

  /** Without an accepted row, the pick is the fallback. */
  lemma PickFallback(keep: Row -> bool, score: Row -> real, rows: seq<Row>, fallback: Option<nat>)
    requires fallback.Some? ==> fallback.value < |rows|
    requires forall k :: 0 <= k < |rows| ==> !keep(rows[k])
    ensures Pick(keep, score, rows, fallback) == fallback
  {
    FilteredEmpty(keep, score, rows);
  }

  // ---------------------------------------------------------------------
  // Choosing the enrollment row

  /** An enrollment row is a candidate for a student when the names are
      similar at the default threshold and the courses correspond. Missing
      cells read as their str() text. */
  predicate IsCandidate(ratio: RatioFn, name: string, course: string, row: Row) {
    && NamesSimilar(ratio, name, CellText(row, NameColumn), DefaultThreshold)
    && CoursesMatch(course, CellText(row, CourseColumn))
  }

  function CandidateTest(ratio: RatioFn, name: string, course: string): Row -> bool {
    row => IsCandidate(ratio, name, course, row)
  }

  /** The name search picks a row, if any. */
  lemma BestIndexInRange(sims: seq<real>, threshold: real)
    ensures BestIndex(sims, threshold).Some? ==> BestIndex(sims, threshold).value < |sims|
  {
    FirstBestSpec(sims, threshold);
  }

  /** The name search for `name` at its default threshold. */
  function Fallback(ratio: RatioFn, name: string, rows: seq<Row>): (r: Option<nat>)
    ensures r.Some? ==> r.value < |rows|
  {
    var sims := Similarities(ratio, name, rows);
    BestIndexInRange(sims, MatchThreshold);
    BestIndex(sims, MatchThreshold)
  }

  /** The row chosen for a student: the head of the candidates sorted on
      (similarity, stamp text) when there are any, the name search
      otherwise. */
  function Choice(ratio: RatioFn, name: string, course: string, rows: seq<Row>): (r: Option<nat>)
    ensures r.Some? ==> r.value < |rows|
  {
    Pick(CandidateTest(ratio, name, course), NameScore(ratio, Normalize(name)), rows, Fallback(ratio, name, rows))
  }

  /** The choice as `processar_inscricao_pandas` makes it. */
  method Choose(ratio: RatioFn, name: string, course: string, rows: seq<Row>) returns (r: Option<nat>)
    ensures r == Choice(ratio, name, course, rows)
  {
    var target := NormalizeName(Some(name));
    var cs := CollectCandidates(CandidateTest(ratio, name, course), NameScore(ratio, target), rows);
    if cs != [] {
      r := Some(cs[TopIndex(cs)].index);
    } else {
      r := FindBestMatch(ratio, name, rows, MatchThreshold);
    }
  }

  /** With a candidate among the rows, the chosen row is the top candidate:
      the greatest similarity, then the greatest stamp text, then the
      earliest row. */
  lemma ChoiceAmongCandidates(ratio: RatioFn, name: string, course: string, rows: seq<Row>, k: nat)
    requires k < |rows| && IsCandidate(ratio, name, course, rows[k])
    ensures var c := Choice(ratio, name, course, rows);
      c.Some? && IsTop(CandidateTest(ratio, name, course), NameScore(ratio, Normalize(name)), rows, c.value)
  {
    PickAmongCandidates(CandidateTest(ratio, name, course), NameScore(ratio, Normalize(name)), rows, Fallback(ratio, name, rows), k);
  }

  /** Without a candidate, the choice is the name search at its default
      threshold. */
  lemma ChoiceWithoutCandidates(ratio: RatioFn, name: string, course: string, rows: seq<Row>)
    requires forall k :: 0 <= k < |rows| ==> !IsCandidate(ratio, name, course, rows[k])
    ensures Choice(ratio, name, course, rows) == BestIndex(Similarities(ratio, name, rows), MatchThreshold)
  {
    PickFallback(CandidateTest(ratio, name, course), NameScore(ratio, Normalize(name)), rows, Fallback(ratio, name, rows));
  }

  // ---------------------------------------------------------------------
  // The pass over the approved students

  /** The student-and-course key: the normalised attendance name, '|', the
      attendance course. */
  function Key(a: Approved): string {
    Normalize(a.originalName) + "|" + a.originalCourse
  }

  /** The row chosen for a student, when there is one and it is not an
      empty row. */
  function ChosenRow(ratio: RatioFn, rows: seq<Row>, a: Approved): Option<Row> {
    var c := Choice(ratio, a.originalName, a.originalCourse, rows);
    if c.Some? && rows[c.value] != map[] then Some(rows[c.value]) else None
  }

  /** What the pass needs to know of each student: its key, the row linked
      to it (None for none) and the record a row gives it. */
  datatype Linker = Linker(key: Approved -> string, chosen: Approved -> Option<Row>, record: (Approved, Row) -> Record)

  /** The linker of `processar_inscricao_pandas`. */
  function Pipeline(ratio: RatioFn, rows: seq<Row>, withPercentage: bool, toInt: string -> Option<int>): Linker {
    Linker(Key, a => ChosenRow(ratio, rows, a), (a, row) => RecordFor(a, row, withPercentage, toInt))
  }

  /** Students seen and students linked for one attendance course. */
  datatype Tally = Tally(total: nat, found: nat)

  /** The state of the pass: the records written, the keys linked, the
      tallies per attendance course, the number of students linked. */
  datatype Progress = Progress(records: seq<Record>, included: set<string>, tallies: map<string, Tally>, found: nat)

  function Counted(tallies: map<string, Tally>, course: string): (r: map<string, Tally>)
    ensures course in r
  {
    var t := if course in tallies then tallies[course] else Tally(0, 0);
    tallies[course := t.(total := t.total + 1)]
  }

  /** One more student of `course` linked. */
  function Linked(tallies: map<string, Tally>, course: string): (r: map<string, Tally>)
    requires course in tallies
    ensures course in r
  {
    tallies[course := tallies[course].(found := tallies[course].found + 1)]
  }

  /** One approved student: counted for its course; skipped when its key is
      already linked; otherwise, when a row is linked to it, its record
      written and its key marked. */
  function Step(l: Linker, p: Progress, a: Approved): Progress {
    var tallies := Counted(p.tallies, a.originalCourse);
    var key := l.key(a);
    if key in p.included then p.(tallies := tallies)
    else
      match l.chosen(a)
      case Some(row) =>
        Progress(p.records + [l.record(a, row)], p.included + {key}, Linked(tallies, a.originalCourse), p.found + 1)
      case None => p.(tallies := tallies)
  }

  /** The pass over the approved students in order. */
  function Run(l: Linker, approved: seq<Approved>): Progress {
    if approved == [] then Progress([], {}, map[], 0)
    else
      var n := |approved| - 1;
      Step(l, Run(l, approved[..n]), approved[n])
  }

  /** "name - course" for every approved student whose key was not linked,
      in order. */
  function NotIncluded(key: Approved -> string, approved: seq<Approved>, included: set<string>): seq<string> {
    if approved == [] then []
    else
      var n := |approved| - 1;
      var a := approved[n];
      NotIncluded(key, approved[..n], included) + (if key(a) !in included then [a.originalName + " - " + a.originalCourse] else [])
  }

  /** `l` is the linker of the pipeline: the key of `Key`, the row that
      `ChosenRow` links, the record of `RecordFor`. */
  ghost predicate Implements(l: Linker, ratio: RatioFn, rows: seq<Row>, withPercentage: bool, toInt: string -> Option<int>) {
    && l.key == Key
    && (forall a {:trigger ChosenRow(ratio, rows, a)} :: l.chosen(a) == ChosenRow(ratio, rows, a))
    && (forall a, row {:trigger RecordFor(a, row, withPercentage, toInt)} :: l.record(a, row) == RecordFor(a, row, withPercentage, toInt))
  }

  lemma PipelineImplements(ratio: RatioFn, rows: seq<Row>, withPercentage: bool, toInt: string -> Option<int>)
    ensures Implements(Pipeline(ratio, rows, withPercentage, toInt), ratio, rows, withPercentage, toInt)
  {
  }

  /** A student whose key is already linked is only counted. */
  lemma StepSkipped(l: Linker, p: Progress, a: Approved)
    requires l.key(a) in p.included || l.chosen(a).None?
    ensures Step(l, p, a) == p.(tallies := Counted(p.tallies, a.originalCourse))
  {
  }

  /** A student with a fresh key and a row is counted, linked and written. */
  lemma StepLinked(l: Linker, p: Progress, a: Approved, row: Row)
    requires l.key(a) !in p.included && l.chosen(a) == Some(row)
    ensures Step(l, p, a) == Progress(p.records + [l.record(a, row)], p.included + {l.key(a)},
                                      Linked(Counted(p.tallies, a.originalCourse), a.originalCourse), p.found + 1)
  {
  }

  /** The body of the pass for one student. */
  method LinkStudent(ghost l: Linker, ratio: RatioFn, toInt: string -> Option<int>, withPercentage: bool, rows: seq<Row>,
                     records: seq<Record>, included: set<string>, tallies: map<string, Tally>, found: nat, a: Approved)
    returns (records': seq<Record>, included': set<string>, tallies': map<string, Tally>, found': nat)
    requires Implements(l, ratio, rows, withPercentage, toInt)
    ensures Progress(records', included', tallies', found') == Step(l, Progress(records, included, tallies, found), a)
  {
    var counted := Counted(tallies, a.originalCourse);
    var normalized := NormalizeName(Some(a.originalName));
    var key := normalized + "|" + a.originalCourse;
    if key in included {
      StepSkipped(l, Progress(records, included, tallies, found), a);
      records', included', tallies', found' := records, included, counted, found;
    } else {
      records', included', tallies', found' := LinkNew(l, ratio, toInt, withPercentage, rows, records, included, tallies, found, a, key);
    }
  }

  /** The body of the pass for a student whose key is not linked yet: the
      row search, and the record when a row is found. */
  method LinkNew(ghost l: Linker, ratio: RatioFn, toInt: string -> Option<int>, withPercentage: bool, rows: seq<Row>,
                 records: seq<Record>, included: set<string>, tallies: map<string, Tally>, found: nat, a: Approved, key: string)
    returns (records': seq<Record>, included': set<string>, tallies': map<string, Tally>, found': nat)
    requires Implements(l, ratio, rows, withPercentage, toInt)
    requires key == l.key(a) && key !in included
    ensures Progress(records', included', tallies', found') == Step(l, Progress(records, included, tallies, found), a)
  {
    ghost var p := Progress(records, included, tallies, found);
    var counted := Counted(tallies, a.originalCourse);
    var chosen := ChooseRow(ratio, rows, a);
    if chosen.None? {
      StepSkipped(l, p, a);
      records', included', tallies', found' := records, included, counted, found;
    } else {
      var record := BuildRecord(a, chosen.value, withPercentage, toInt);
      StepLinked(l, p, a, chosen.value);
      records', included', tallies', found' := records + [record], included + {key}, Linked(counted, a.originalCourse), found + 1;
    }
  }

  /** The row linked to a student: the chosen row, unless there is none or
      it is empty. */
  method ChooseRow(ratio: RatioFn, rows: seq<Row>, a: Approved) returns (chosen: Option<Row>)
    ensures chosen == ChosenRow(ratio, rows, a)
  {
    var choice := Choose(ratio, a.originalName, a.originalCourse, rows);
    if choice.Some? && rows[choice.value] != map[] {
      chosen := Some(rows[choice.value]);
    } else {
      chosen := None;
    }
  }

  /** The pass over one more student. */
  lemma RunNext(l: Linker, approved: seq<Approved>, i: nat)
    requires i < |approved|
    ensures Run(l, approved[..i + 1]) == Step(l, Run(l, approved[..i]), approved[i])
  {
    assert approved[..i + 1][..i] == approved[..i];
  }

  /** The list of students left out over one more student. */
  lemma NotIncludedNext(key: Approved -> string, approved: seq<Approved>, included: set<string>, i: nat)
    requires i < |approved|
    ensures NotIncluded(key, approved[..i + 1], included)
      == NotIncluded(key, approved[..i], included)
         + (if key(approved[i]) !in included then [approved[i].originalName + " - " + approved[i].originalCourse] else [])
  {
    assert approved[..i + 1][..i] == approved[..i];
  }

  /** The closing loop of `processar_inscricao_pandas`: the label of every
      approved student whose key was not linked. */
  method ListNotIncluded(approved: seq<Approved>, included: set<string>) returns (notIncluded: seq<string>)
    ensures notIncluded == NotIncluded(Key, approved, included)
  {
    notIncluded := [];
    for i := 0 to |approved|
      invariant notIncluded == NotIncluded(Key, approved[..i], included)
    {
      NotIncludedNext(Key, approved, included, i);
      var a := approved[i];
      var normalized := NormalizeName(Some(a.originalName));
      if normalized + "|" + a.originalCourse !in included {
        notIncluded := notIncluded + [a.originalName + " - " + a.originalCourse];
      }
    }
    assert approved[..|approved|] == approved;
  }

  /** `processar_inscricao_pandas` after reading its inputs: the records, the
      students left out, the tallies per course and the number linked. */
  method LinkEnrollments(ratio: RatioFn, toInt: string -> Option<int>, rows: seq<Row>, approved: seq<Approved>, withPercentage: bool)
    returns (records: seq<Record>, notIncluded: seq<string>, tallies: map<string, Tally>, found: nat)
    ensures var p := Run(Pipeline(ratio, rows, withPercentage, toInt), approved);
      && records == p.records && tallies == p.tallies && found == p.found
      && notIncluded == NotIncluded(Key, approved, p.included)
  {
    ghost var l := Pipeline(ratio, rows, withPercentage, toInt);
    PipelineImplements(ratio, rows, withPercentage, toInt);
    records, tallies, found := [], map[], 0;
    var included: set<string> := {};
    for i := 0 to |approved|
      invariant Progress(records, included, tallies, found) == Run(l, approved[..i])
    {
      RunNext(l, approved, i);
      records, included, tallies, found := LinkStudent(l, ratio, toInt, withPercentage, rows, records, included, tallies, found, approved[i]);
    }
    assert approved[..|approved|] == approved;
    notIncluded := ListNotIncluded(approved, included);
  }

  /** Each record comes with a fresh key: there are as many records as
      linked keys and as the count of linked students, and no more than
      approved students. */
  lemma {:induction false} RunCounts(l: Linker, approved: seq<Approved>)
    ensures var p := Run(l, approved); |p.records| == |p.included| == p.found <= |approved|
  {
    if approved != [] {
      RunCounts(l, approved[..|approved| - 1]);
    }
  }

  /** The keys and the records after one student. */
  lemma StepGrows(l: Linker, p: Progress, a: Approved)
    ensures var isNew := l.key(a) !in p.included && l.chosen(a).Some?;
      && Step(l, p, a).included == (if isNew then p.included + {l.key(a)} else p.included)
      && Step(l, p, a).records == (if isNew then p.records + [l.record(a, l.chosen(a).value)] else p.records)
  {
  }

  /** Some approved student with key `key` has a row linked to them. */
  ghost predicate LinkedBy(l: Linker, approved: seq<Approved>, key: string) {
    exists i :: 0 <= i < |approved| && l.key(approved[i]) == key && l.chosen(approved[i]).Some?
  }

  lemma LinkedBySnoc(l: Linker, approved: seq<Approved>, key: string)
    requires approved != []
    ensures var n := |approved| - 1;
      LinkedBy(l, approved, key) <==>
        LinkedBy(l, approved[..n], key) || (l.key(approved[n]) == key && l.chosen(approved[n]).Some?)
  {
    var n := |approved| - 1;
    if LinkedBy(l, approved, key) {
      var i :| 0 <= i < |approved| && l.key(approved[i]) == key && l.chosen(approved[i]).Some?;
      if i < n {
        assert approved[..n][i] == approved[i];
      }
    }
    if LinkedBy(l, approved[..n], key) {
      var i :| 0 <= i < n && l.key(approved[..n][i]) == key && l.chosen(approved[..n][i]).Some?;
      assert approved[..n][i] == approved[i];
    }
  }

  /** A key is linked exactly when some approved student with that key has a
      row linked to it. */
  lemma {:induction false} RunIncluded(l: Linker, approved: seq<Approved>)
    ensures forall key :: key in Run(l, approved).included <==> LinkedBy(l, approved, key)
  {
    if approved != [] {
      var n := |approved| - 1;
      var prev := Run(l, approved[..n]);
      RunIncluded(l, approved[..n]);
      StepGrows(l, prev, approved[n]);
      forall key
        ensures key in Run(l, approved).included <==> LinkedBy(l, approved, key)
      {
        LinkedBySnoc(l, approved, key);
      }
    }
  }

  /** `r` is the record of an approved student with the row linked to them. */
  ghost predicate RecordOfSome(l: Linker, approved: seq<Approved>, r: Record) {
    exists i :: 0 <= i < |approved| && l.chosen(approved[i]).Some? && r == l.record(approved[i], l.chosen(approved[i]).value)
  }

  lemma RecordOfSomeSnoc(l: Linker, approved: seq<Approved>, r: Record)
    requires approved != []
    ensures var n := |approved| - 1;
      RecordOfSome(l, approved[..n], r) ==> RecordOfSome(l, approved, r)
  {
    var n := |approved| - 1;
    if RecordOfSome(l, approved[..n], r) {
      var i :| 0 <= i < n && l.chosen(approved[..n][i]).Some? && r == l.record(approved[..n][i], l.chosen(approved[..n][i]).value);
      assert approved[..n][i] == approved[i];
    }
  }

  /** Every record is the record of an approved student with the row linked
      to them. */
  lemma {:induction false} RunRecords(l: Linker, approved: seq<Approved>)
    ensures forall r :: r in Run(l, approved).records ==> RecordOfSome(l, approved, r)
  {
    if approved != [] {
      var n := |approved| - 1;
      var a := approved[n];
      var prev := Run(l, approved[..n]);
      RunRecords(l, approved[..n]);
      StepGrows(l, prev, a);
      var p := Run(l, approved);
      forall r | r in p.records
        ensures RecordOfSome(l, approved, r)
      {
        if r in prev.records {
          RecordOfSomeSnoc(l, approved, r);
        } else {
          assert p.records == prev.records + [l.record(a, l.chosen(a).value)];
          assert 0 <= n < |approved| && l.chosen(approved[n]).Some? && r == l.record(approved[n], l.chosen(approved[n]).value);
        }
      }
    }
  }

  /** How many approved students have attendance course `course`. */
  function Occurrences(approved: seq<Approved>, course: string): nat {
    if approved == [] then 0
    else
      var n := |approved| - 1;
      Occurrences(approved[..n], course) + (if approved[n].originalCourse == course then 1 else 0)
  }

  /** The tallies have an entry exactly for the courses that occur; its
      total is the number of approved students with that course, and no
      more of them are linked than that. */
  lemma {:induction false} RunTallies(l: Linker, approved: seq<Approved>)
    ensures var p := Run(l, approved);
      forall course ::
        && (course in p.tallies <==> Occurrences(approved, course) > 0)
        && (course in p.tallies ==>
              p.tallies[course].total == Occurrences(approved, course) && p.tallies[course].found <= p.tallies[course].total)
  {
    if approved != [] {
      RunTallies(l, approved[..|approved| - 1]);
    }
  }

  /** The list of students left out holds the label of every approved
      student whose key was not linked, and nothing else. */
  lemma {:induction false} NotIncludedSpec(key: Approved -> string, approved: seq<Approved>, included: set<string>)
    ensures var out := NotIncluded(key, approved, included);
      && |out| <= |approved|
      && forall s :: s in out <==>
           exists i :: 0 <= i < |approved| && key(approved[i]) !in included
             && s == approved[i].originalName + " - " + approved[i].originalCourse
  {
    if approved != [] {
      var n := |approved| - 1;
      var init := approved[..n];
      NotIncludedSpec(key, init, included);
      assert forall i :: 0 <= i < n ==> init[i] == approved[i];
    }
  }

  /** When every approved student's key is linked, nobody is left out. */
  lemma {:induction false} NotIncludedEmpty(key: Approved -> string, approved: seq<Approved>, included: set<string>)
    requires forall i :: 0 <= i < |approved| ==> key(approved[i]) in included
    ensures NotIncluded(key, approved, included) == []
  {
    if approved != [] {
      var n := |approved| - 1;
      assert forall i :: 0 <= i < n ==> approved[..n][i] == approved[i];
      NotIncludedEmpty(key, approved[..n], included);
    }
  }

  /** When every approved student has a row linked, nobody is left out. */
  lemma AllLinkedNoneLeftOut(l: Linker, approved: seq<Approved>)
    requires forall i :: 0 <= i < |approved| ==> l.chosen(approved[i]).Some?
    ensures NotIncluded(l.key, approved, Run(l, approved).included) == []
  {
    RunIncluded(l, approved);
    forall i | 0 <= i < |approved|
      ensures l.key(approved[i]) in Run(l, approved).included
    {
      assert LinkedBy(l, approved, l.key(approved[i]));
    }
    NotIncludedEmpty(l.key, approved, Run(l, approved).included);
  }
}
