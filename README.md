# Certificate list pipeline, modelled in Dafny

This project models the core of the certificate pipeline. The pipeline
produces the list of students who earn a course certificate from two
spreadsheets.

- **The attendance sheet** (`processar_frequencia_pandas`) has one row per
  student and course, with a mark in each of the last five columns (the
  class days).
  - A row without a name or a course is an anomaly.
  - A student present (P or FJ) on at least 60% of the valid days (P, F or
    FJ) is approved. Their name is capitalised, the course is given its
    certificate title, and the last day's header becomes the completion
    date.
  - Everybody else is rejected, with a reason.
- **The enrollment form** (`processar_inscricao_pandas`) is searched for
  each approved student.
  - The candidates are the rows whose name is similar (`nomes_similares`)
    and whose course corresponds (`cursos_correspondentes`). The best of
    them is taken, by similarity and then by time stamp.
  - Without a candidate, the best match by name alone is taken
    (`encontrar_melhor_correspondencia`).
  - A linked student gets one output record. Its fields are copied from the
    form, converted field by field, and completed from the attendance sheet.
  - A student and course already linked is skipped. Per-course tallies
    count the students seen and the students linked. The students left
    without a record are listed.

The helpers of `utils.py` are modelled with them: `formatar_data`,
`obter_nome_curso_para_certificado`, `normalizar_nome`, `capitalizar_nome`,
`nomes_similares`, `mapear_curso_inscricao`, `cursos_correspondentes`,
`encontrar_melhor_correspondencia` and `ordenar_por_nome`.

`teste.py` is an earlier revision of the same code. Its only difference in
behaviour is the PORCENTAGEM_PRESENCA field: the attendance pass stores the
percentage, and the enrollment pass copies it into the record. Every member
that builds a record takes a `withPercentage` flag; `true` selects that
revision.

Modules, one per concern:

| file | module | models |
|---|---|---|
| text.dfy | Text | `str.lower`/`upper`/`strip`/`split`/`join`, `in` on strings |
| numbers.dfy | Numbers | `int()` on text, `str()` of an integer |
| dates.dfy | Dates | `formatar_data` |
| normalize.dfy | Normalization | `normalizar_nome` |
| capitalize.dfy | Capitalization | `capitalizar_nome` |
| courses.dfy | Courses | `obter_nome_curso_para_certificado`, `mapear_curso_inscricao`, `cursos_correspondentes` |
| similarity.dfy | Similarity | `nomes_similares` |
| bestmatch.dfy | BestMatch | `encontrar_melhor_correspondencia` |
| attendance.dfy | Attendance | `processar_frequencia_pandas`, `ordenar_por_nome` |
| linkage.dfy | Linkage | `processar_inscricao_pandas` |

Each loop of the source is a method. The method is proved against a
function that states what the loop computes, and lemmas state what the
source promises about that function.

The following are parameters of the model:

- **`SequenceMatcher.ratio()`** is a parameter `ratio` of type
  `RatioFn`. It may be any function with values in [0, 1] that gives 1 for
  two equal texts, as difflib's ratio does.
- **`int(float(v))`** is a parameter `toInt`. It returns None where Python
  raises.

## Model

| member | source | states |
|---|---|---|
| Dates.FormatDate | utils.py:5-40 | a label is only ever rewritten when it has a '/', and a rewritten label always ends in " de 2025" |
| Dates.FormatDateOfNumbers | utils.py:15-37 | a day and a month 1..12 written as integers with a '/' between them become "day de month-name de 2025" |
| Dates.FormatDateOfParts | utils.py:15-37 | any day and month text that int() accepts (signs, spaces, leading zeros) gives the day's integer and the month's name, the year always 2025 |
| Dates.FormatDateLeadingZeros | utils.py:15-37 | a header such as "05/03" drops the day's leading zero and names the month |
| Dates.FormatDateNoSlash | utils.py:15-40 | a label without '/' fails at partes[1] and is returned unchanged |
| Dates.FormatDateBadMonth | utils.py:17-40 | a month outside 1..12 has no name in the table, and the label is returned unchanged |
| Dates.FormatDateNotInteger | utils.py:15-40 | a label with a '/' whose day or month part int() rejects is returned unchanged |
| Dates.FormatDateNoDigitDay | utils.py:15-40 | a label whose day part holds no digit is returned unchanged |
| Numbers.ParseIntToString | utils.py:17-18 | int() reads back the integer str() wrote |
| Numbers.ParseIntNeedsDigit | utils.py:17-18 | int() rejects a text that holds no digit |
| Numbers.ParseIntOfNegative | utils.py:17-18 | a minus sign before digit groups negates the value int() reads |
| Courses.CertificateCourse | utils.py:53-64 | the title is one of the four certificate titles or the label itself, and an unknown label is printed as it is |
| Courses.CertificateCourseIgnoresCase | utils.py:53-62 | a known label is recognised in any mixture of case, and spellings with the same lower case get the same title |
| Courses.CertificateCourseIdempotent | utils.py:53-64 | looking up a printed title again gives it back, so the lookup is idempotent |
| Courses.MapEnrollmentCourse | utils.py:250-259 | the result is the label itself or one of the enrollment-form labels of the table |
| Courses.MapEnrollmentCourseIdempotent | utils.py:250-259 | mapping a mapped label again changes nothing: the enrollment-form labels are fixed points of the table |
| Courses.MapEnrollmentCourseCaseSensitive | utils.py:259 | the lookup is exact: "PC Gamer" is mapped, while "pc gamer" is its own label |
| Courses.CoursesMatch | utils.py:262-308 | definition: both labels normalised; equal, or a keyword rule accepts them, or the table's label for the attendance course normalises to the enrollment course |
| Courses.KeywordRules | utils.py:281-301 | definition: the nine keyword rules on normalised labels, in the source's order |
| Courses.CoursesMatchReflexive | utils.py:274-279 | every course corresponds to itself |
| Courses.TableLabelsMatch | utils.py:304-306 | each attendance label of the table corresponds to its enrollment-form label |
| Courses.PhoneCoursesMatch | utils.py:286-289 | two labels that both mention "celular" once normalised correspond, in both directions |
| Courses.NoKeywordRule | utils.py:282-301 | a label that mentions none of the catalogue keywords passes none of the keyword rules |
| Courses.UncataloguedCoursesMatchExactly | utils.py:273-308 | for a course outside the catalogue, correspondence is exactly equality of the normalised labels, in both directions |
| Normalization.Normalize | utils.py:88-110 | definition: lower case, strip, drop "(...)" groups, strip, replace the table's accented letters, collapse white-space runs to one space |
| Normalization.NormalizeName | utils.py:77-110 | None gives ""; a string gives its canonical form |
| Normalization.RemoveAccents | utils.py:95-105 | the replacement loop over the accent table strips every accented letter of the table |
| Normalization.AccentsReplaced | utils.py:104-105 | after the last table entry, every letter of the text has lost its accent |
| Normalization.NormalizeShape | utils.py:88-110 | the result is lower case, has no accented letter of the table, no "(...)" group, no edge space and only single ' ' spaces |
| Normalization.NormalIsFixed | utils.py:88-110 | a text already in that shape is its own normal form |
| Normalization.NormalizeIdempotent | utils.py:67-110 | normalising twice is normalising once |
| Capitalization.Capitalized | utils.py:134-151 | definition: "" for "", otherwise the lower-cased words rewritten by position and joined by spaces |
| Capitalization.CapitalizeName | utils.py:123-151 | None and "" give ""; otherwise the result is the capitalised form of the name |
| Capitalization.CapitalizeWords | utils.py:144-149 | the loop rewrites each lower-cased word: a connector after the first word stays lower case, every other word is capitalised |
| Capitalization.CapitalizedWords | utils.py:138-151 | the result has as many words as the input, each rewritten by its position, joined by single spaces |
| Capitalization.CapitalizedShape | utils.py:141-151 | the result has no edge space and only single ' ' spaces, and it is empty exactly when the name has no word |
| Capitalization.CapitalizedFirstLetter | utils.py:141-151 | the result starts with the upper-case form of the name's first letter |
| Capitalization.CapitalizedIdempotent | utils.py:113-151 | capitalising a capitalised name changes nothing |
| Similarity.NamesSimilar | utils.py:168-181 | definition: the names are normalised and then compared by SimilarNormalized |
| Similarity.SimilarNormalized | utils.py:183-237 | definition: equal; ratio at least the threshold; one contained in the other; or the word-level tests, in the source's order |
| Similarity.WordsSimilar | utils.py:196-237 | definition: the Jaccard index of the compared word sets reaches the threshold, or enough surnames are shared |
| Similarity.NamesSimilarReflexive | utils.py:180-185 | a name is similar to itself |
| Similarity.EmptyNameSimilarToAll | utils.py:192-194 | a name that normalises to "" is similar to every name, both ways, because "" is contained in every text |
| Similarity.NamesSimilarMonotone | utils.py:168-237 | lowering the threshold never makes similar names dissimilar |
| Similarity.NamesSimilarSymmetric | utils.py:180-237 | with a symmetric ratio, the relation is symmetric |
| Similarity.SameWordsSimilar | utils.py:196-221 | names made of the same words, in any order, are similar at every threshold up to 1 |
| Similarity.DisjointWordsNotSimilar | utils.py:196-237 | texts that share no word fail the Jaccard test and the surname test at every positive threshold |
| Similarity.NothingSharedNotSimilar | utils.py:180-237 | names are not similar if their ratio is below the threshold, neither contains the other and they share no word |
| BestMatch.MissingNameSimilarity | utils.py:344-354 | a row without a name column is compared with "", and a row whose name is missing with "nan" |
| BestMatch.Similarities | utils.py:339-354 | one similarity per enrollment row, each in [0, 1] |
| BestMatch.FirstBest | utils.py:340-359 | definition: the first index of the largest similarity that reaches the threshold and exceeds 0 |
| BestMatch.BestIndex | utils.py:340-365 | definition: the first index above 0.9 if any, otherwise FirstBest |
| BestMatch.FirstBestSpec | utils.py:356-359 | the kept index holds the largest qualifying similarity and no earlier row holds one as large; with no index kept, no similarity qualifies |
| BestMatch.FirstBestUnique | utils.py:356-359 | that index is unique |
| BestMatch.Scan | utils.py:343-365 | the loop, including its early return above 0.9, returns the index BestIndex describes |
| BestMatch.FindBestMatch | utils.py:327-365 | the search returns the index BestIndex describes for the similarities of the normalised names |
| BestMatch.BestIndexNone | utils.py:327-365 | for a threshold in (0, 0.9], nothing is found exactly when no similarity reaches the threshold |
| BestMatch.BestIndexFound | utils.py:343-365 | a found row is almost exact or reaches the threshold, and no qualifying row is more similar unless an almost exact row came first |
| BestMatch.NearExactFound | utils.py:361-363 | a similarity above 0.9 is always found: the result is the first such row, at or before it |
| BestMatch.ExactNameFound | utils.py:339-363 | an enrollment whose name normalises to the student's own is always found, at or before its row |
| Attendance.DateColumns | processadores.py:42-44 | the date columns are the last five, or all of them when there are fewer |
| Attendance.MarkRule | processadores.py:74-86 | a missing cell is never a valid day; a cell is a valid day exactly when it reads P, F or FJ and a presence exactly when it reads P or FJ, in any case |
| Attendance.ReadMarks | processadores.py:75-82 | the loop over the date columns builds exactly those marks |
| Attendance.ValidCountSize | processadores.py:84-86 | the number of valid days is the number of positions holding P, F or FJ |
| Attendance.PresentCountSize | processadores.py:101-102 | the number of days with presence is the number of positions holding P or FJ |
| Attendance.PresentDaysValid | processadores.py:85-102 | every day with presence is a valid day |
| Attendance.NoValidDay | processadores.py:84-92 | there is no valid day exactly when no mark is P, F or FJ |
| Attendance.Judge | processadores.py:60-133 | definition: the anomaly for a missing name or course, the verdict on the marks otherwise |
| Attendance.Verdict | processadores.py:84-133 | definition: rejection without valid days, approval at 60%, rejection with the percentage otherwise |
| Attendance.Outcomes | processadores.py:56-133 | definition: one outcome per row, in row order |
| Attendance.JudgeRow | processadores.py:60-133 | the loop body gives the outcome Judge defines for the row |
| Attendance.Assess | processadores.py:84-133 | after the marks are read, the body gives the verdict Verdict defines |
| Attendance.Filed | processadores.py:67-133 | filing an outcome appends it to exactly one of the three lists |
| Attendance.ProcessRow | processadores.py:60-133 | one iteration extends the three lists by the outcome of that row |
| Attendance.ProcessAttendance | processadores.py:14-141 | the approved, rejected and anomalous rows are those of the row-by-row outcomes, in row order, and the total is the number of rows |
| Attendance.OutcomesPartition | processadores.py:60-133 | every row ends up in exactly one of the three lists |
| Attendance.PassThreshold | processadores.py:104-108 | the test "percentage >= 60" on exact values is the integer test 5 * present >= 3 * valid |
| Attendance.TenthsNearest | teste.py:574 | the one-decimal percentage is the exact percentage rounded to the nearest tenth, halves up |
| Attendance.ValidDaysBounded | processadores.py:42-86 | a row has at most five valid days |
| Attendance.AnomalyRule | processadores.py:62-72 | a row is an anomaly exactly when its name or course is missing or empty, and the anomaly records the row's index |
| Attendance.ApprovalRule | processadores.py:62-108 | a row is approved exactly when it has a name and a course, at least one valid day and presence on at least 60% of them |
| Attendance.JudgeShape | processadores.py:108-126 | an approved row's record holds the capitalised name and the certificate course, NOME_ORIGINAL and CURSO_ORIGINAL equal to the row's raw name and course, the formatted last date column, the row's attendance summary, and in the earlier revision the one-decimal percentage of its marks |
| Attendance.ApprovalsShape | processadores.py:60-126 | every record in the approved list is the record of one of the rows judged, built from that row as above |
| Attendance.ApprovedCompletion | processadores.py:44-110 | an approved student's completion date is the last column header, written out by formatar_data |
| Attendance.VerdictFacts | teste.py:536-582 | in both revisions, a row with a name and a course is never an anomaly, passes exactly at 60% of at least one valid day, and passes with a record holding that name and course raw and derived, the summary of its marks, the formatted last date column and, in the earlier revision, the percentage text |
| Attendance.VerdictRule | processadores.py:91-133 | never an anomaly; approval exactly at 60% of at least one valid day, with the record of that name, course and marks; otherwise the sheet's name and course are rejected, with 'Sem dias válidos de presença' when there is no valid day and "Presença insuficiente (x.y%)" otherwise |
| Attendance.VerdictRecord | teste.py:557-575 | the approved record has NOME_ORIGINAL and CURSO_ORIGINAL equal to the raw name and course, NOME and CURSO derived from them, DATA_CONCLUSAO from the last date column, DETALHES_PRESENCA the summary and PORCENTAGEM_PRESENCA the `.1f` percentage text |
| Attendance.JudgeVerdict | processadores.py:60-133 | a row's outcome is the anomaly when the name or course is missing, and otherwise the verdict on its marks, whose approved record is built from the row's own name, course and marks |
| Linkage.RecordFor | processadores.py:354-396 | definition: the record of a student linked to a row, field by field |
| Linkage.BlankRecord | processadores.py:355-359 | every final field is set to "" and nothing else is present |
| Linkage.CopyCells | processadores.py:361-389 | the copy loop leaves in each field the converted value of its column when present, "" otherwise |
| Linkage.ConvertCell | processadores.py:366-387 | the name comes from the attendance sheet; a non-empty state is stripped and upper-cased; the birth day, birth year and age become integers when they read as one |
| Linkage.SetSheetFields | processadores.py:391-393 | the completion date and the certificate course come from the attendance sheet, and nothing else changes |
| Linkage.CapitalizeField | processadores.py:395-397 | a non-empty name is capitalised, and nothing else changes |
| Linkage.FillRecord | processadores.py:354-397 | the four stages build exactly RecordOver: blanks, copied cells, sheet fields, capitalised name |
| Linkage.BuildRecord | processadores.py:354-399 | the record of a linked student is RecordFor |
| Linkage.RecordAssembled | processadores.py:354-397 | the results of the three stages add up to the specified record |
| Linkage.AssembledValue | processadores.py:389-397 | one field, followed through the stages, ends with its specified value |
| Linkage.CopiedNothing | processadores.py:362-389 | table entries that do not name a field write nothing into it |
| Linkage.CopiedLater | processadores.py:362-389 | entries after the one that names a field leave it unchanged |
| Linkage.FieldTable | processadores.py:196-219 | the column-to-field table writes only final fields, each field at most once, and never the course or completion date |
| Linkage.CopyOrderInBase | processadores.py:196-219 | the copying order is the output order without the course and the completion date |
| Linkage.RecordEntry | processadores.py:361-397 | a copied field holds its converted cell when present and "" otherwise; a present name is the capitalised student name |
| Linkage.RecordSheetFields | teste.py:836-844 | the record has exactly the final fields, the attendance course and completion date, and in the earlier revision the stored percentage |
| Linkage.RecordName | processadores.py:376-397 | the record's name is the capitalised student name when the form has one, "" otherwise |
| Linkage.RecordCopiedFields | processadores.py:361-389 | every other copied field holds the converted cell of its column, or "" when that column is absent or the cell missing |
| Linkage.RecordOfApproved | processadores.py:244-397 | for a student approved by the attendance pass: the record's name is the capitalised attendance name, its course is the certificate title, and in the earlier revision its percentage is the attendance percentage |
| Linkage.Filtered | processadores.py:271-318 | every candidate is a row of the form |
| Linkage.CollectCandidates | processadores.py:268-318 | the candidate loop keeps exactly the accepted rows, in order, with their scores |
| Linkage.FilteredSound | processadores.py:271-306 | every candidate is an accepted row with its own similarity and stamp |
| Linkage.FilteredOrdered | processadores.py:271-306 | candidates are in increasing row order |
| Linkage.FilteredComplete | processadores.py:271-306 | every accepted row is a candidate |
| Linkage.FilteredEmpty | processadores.py:321-337 | without accepted rows there is no candidate |
| Linkage.StrLessIrreflexive | processadores.py:325-331 | string order on the stamps is irreflexive |
| Linkage.StrLessTransitive | processadores.py:325-331 | string order on the stamps is transitive |
| Linkage.StrLessTotal | processadores.py:325-331 | two different stamps are always ordered |
| Linkage.KeyLessIrreflexive | processadores.py:325-331 | the (similarity, stamp) key order is irreflexive |
| Linkage.KeyLessTransitive | processadores.py:325-331 | the key order is transitive |
| Linkage.TopIndexSpec | processadores.py:323-335 | the head of the stable descending sort has the greatest key, and every earlier candidate has a smaller one |
| Linkage.FilteredTop | processadores.py:268-335 | the head of the sorted candidates is the top accepted row |
| Linkage.TopUnique | processadores.py:323-335 | at most one row is the top row |
| Linkage.PickAmongCandidates | processadores.py:321-336 | with an accepted row, the pick is the top row |
| Linkage.PickFallback | processadores.py:337-345 | without an accepted row, the pick is the fallback |
| Linkage.IsCandidate | processadores.py:268-302 | definition: the names are similar at the default threshold and the courses correspond |
| Linkage.Choice | processadores.py:320-345 | a chosen row is a row of the form |
| Linkage.Choose | processadores.py:267-345 | the search, candidate loop, sort and fallback, chooses the row Choice defines |
| Linkage.ChoiceAmongCandidates | processadores.py:302-336 | with a candidate, the chosen row is the top candidate: greatest similarity, then greatest stamp, then the earliest row |
| Linkage.ChoiceWithoutCandidates | processadores.py:337-345 | without a candidate, the choice is encontrar_melhor_correspondencia at its default threshold |
| Linkage.ChooseRow | processadores.py:320-348 | the linked row is the chosen row unless there is none or it is empty |
| Linkage.Key | processadores.py:260 | definition: the normalised attendance name, "\|", the attendance course |
| Linkage.ChosenRow | processadores.py:320-348 | definition: the chosen row, unless there is none or it is an empty row |
| Linkage.Step | processadores.py:244-401 | definition: one approved student counted, then skipped, or linked and written |
| Linkage.Run | processadores.py:238-401 | definition: Step over the approved students in order |
| Linkage.NotIncluded | processadores.py:439-450 | definition: "name - course" for every approved student whose key was not linked, in order |
| Linkage.StepSkipped | processadores.py:250-265 | a student whose key is already linked, or who has no row, is only counted |
| Linkage.StepLinked | processadores.py:347-399 | a student with a fresh key and a row is counted, marked, tallied as found and written |
| Linkage.LinkStudent | processadores.py:243-401 | the loop body for one student performs Step |
| Linkage.LinkNew | processadores.py:267-401 | for a student not yet linked, the body performs Step |
| Linkage.RunNext | processadores.py:243-401 | the pass over one more student is one more Step |
| Linkage.NotIncludedNext | processadores.py:439-450 | the left-out list over one more student grows by that student's label when its key is not linked |
| Linkage.ListNotIncluded | processadores.py:438-450 | the closing loop lists the label of every approved student whose key is not linked |
| Linkage.LinkEnrollments | processadores.py:144-450 | the records, tallies, number found and left-out list are those of the pass Run over the approved students |
| Linkage.RunCounts | processadores.py:347-399 | there are as many records as linked keys and as linked students, and no more than approved students |
| Linkage.StepGrows | processadores.py:260-399 | after a student, the keys and records grow exactly when its key is new and a row is linked |
| Linkage.RunIncluded | processadores.py:243-401 | a key is linked exactly when some approved student with that key has a row |
| Linkage.RunRecords | processadores.py:243-401 | every record is the record of an approved student with the row linked to them |
| Linkage.RunTallies | processadores.py:250-353 | a course has a tally exactly when it occurs; its total is its number of students, and no more of them are found |
| Linkage.NotIncludedSpec | processadores.py:438-450 | the left-out list holds exactly the labels of the approved students whose key was not linked |
| Linkage.NotIncludedEmpty | processadores.py:438-450 | when every key is linked, nobody is left out |
| Linkage.AllLinkedNoneLeftOut | processadores.py:243-450 | when every approved student has a row, nobody is left out |
| Attendance.SortKey | utils.py:311-324 | the key the rejected students are listed by (main.py:47) is their name lowered character by character |
| Attendance.SortKeyIgnoresCase | utils.py:321-324 | names that differ only in case get the same key, and a lower-case name is its own key |

## Left out

- Reading and writing files are not modelled: the CSV inputs, the
  anomaly, dubious-match and left-out reports, the per-course sheets, the
  processing log and every `print`. The model starts from the read
  sheets and returns the lists those files would hold.
- The batches of 500 rows are not modelled. They change nothing in the
  order or the results, so the loops run over all rows at once.
- The dubious matches (similarity in [0.6, 0.8)) and the best similarity
  are only logged, so they are not modelled.
- The per-row `except` of the candidate loop is not modelled. The model
  assumes the comparison never raises.
- The catch-all `except` that returns [] is not modelled.
- `str()` of values that cannot be converted is not modelled.
- A missing column (`KeyError` on `ALUNOS`, `CURSO`, `NOME_ORIGINAL`, ...)
  is not modelled. `WellFormed` requires the name and course columns and
  complete rows, as a read data frame has them.
- `SequenceMatcher.ratio()` is not modelled. It is the `ratio` parameter,
  and only its range [0, 1] and ratio(a, a) == 1 are used. `calcular_similaridade` is therefore
  that parameter.
- `int(float(v))` is not modelled. It is the `toInt` parameter.
- Text functions cover ASCII and Latin-1 only. Case mapping and white
  space follow Python's rules on those characters, except for three
  letters the model leaves unchanged: ß (U+00DF, which Python upper-cases
  to "SS" and capitalises to "Ss"), µ (U+00B5, upper-cased to Greek "Μ")
  and ÿ (U+00FF, upper-cased to "Ÿ"). This affects the state field, the
  presence marks and capitalised names. Other Unicode characters are left
  unchanged.
- Floating point is not modelled. Percentages and similarities are exact
  reals. With at most five valid days, no percentage lies on a rounding
  tie and the 60% test on doubles agrees with the exact test.
- Attendance.TenthsNearest: `:.1f` is modelled as rounding the exact
  value half up. Python rounds the binary double, but no tie can arise
  with five or fewer days.
- Linkage.TopIndexSpec: only the head of the sort is modelled, the only
  element the source reads. The full sorted list is not.
- SortKey: only the key is modelled. The sorted listing of the rejected
  students in `main.py` is printed output. Its `None` case is not
  modelled, because a rejected student's name is always text.
- Linkage.ConvertCell: the `int(float(...))` exception is modelled as a
  None from `toInt`, which leaves the text unchanged.
- Where the documentation describes "pcgamer" matching differently, the
  model follows `cursos_correspondentes` as written. After normalisation
  "PC Gamer" becomes "pc gamer", which does not contain "pcgamer".
- The other helpers of the repository are not part of this model: the
  reports in `relatorios.py`, the command-line flow in `main.py`, and the
  test scripts.
