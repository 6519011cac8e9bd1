/** The fallback name search (`encontrar_melhor_correspondencia`): the
    enrollment whose name is most similar to a student's name, taking the
    first one that is almost exact. */
module BestMatch {
  import opened Text
  import opened Normalization
  import opened Similarity

  /** An enrollment-form row: column name to cell text; None is a missing
      value (NaN). Values are the text Python's str() gives for them. */
  type Row = map<string, Option<string>>

  const NameColumn := "Nome completo"

  /** Default threshold of the search. */
  const MatchThreshold: real := 0.65

  /** Similarity above which the search stops at once. */
  const NearExact: real := 0.9

  /** str(row.get(key, '')): "" for an absent column, "nan" for a missing
      value, the value's text otherwise. */
  function CellText(row: Row, key: string): (r: string)
    ensures key in row && row[key].Some? ==> r == row[key].value
    ensures key !in row ==> r == ""
    ensures key in row && row[key].None? ==> r == "nan"
  {
    if key !in row then "" else if row[key].None? then "nan" else row[key].value
  }

  /** The similarity of a normalised target name to a row's normalised name. */
  function RowSimilarity(ratio: RatioFn, target: string, row: Row): (s: real)
    ensures 0.0 <= s <= 1.0
  {
    ratio(target, Normalize(CellText(row, NameColumn)))
  }

  /** The score of every row under `score`, in row order. */
  function Scores(score: Row -> real, rows: seq<Row>): (sims: seq<real>)
    ensures |sims| == |rows| && forall k :: 0 <= k < |rows| ==> sims[k] == score(rows[k])
  {
    seq(|rows|, k requires 0 <= k < |rows| => score(rows[k]))
  }

  /** Scoring a row against the normalised name `target`. */
  function NameScore(ratio: RatioFn, target: string): Row -> real {
    row => RowSimilarity(ratio, target, row)
  }

  /** The similarity of the normalised student name to each enrollment name,
      in row order. */
  function Similarities(ratio: RatioFn, name: string, rows: seq<Row>): (sims: seq<real>)
    ensures |sims| == |rows|
    ensures forall k :: 0 <= k < |rows| ==> 0.0 <= sims[k] <= 1.0
  {
    Scores(NameScore(ratio, Normalize(name)), rows)
  }

  /** A similarity the search may keep: at least the threshold and above the
      initial best of 0. */
  predicate Qualifies(s: real, threshold: real) {
    s >= threshold && s > 0.0
  }

  /** Among the first `n` similarities, `k` holds the largest qualifying one,
      and no earlier one is as large. */
  predicate IsBestAmong(sims: seq<real>, threshold: real, n: nat, k: nat)
    requires n <= |sims|
  {
    && k < n && Qualifies(sims[k], threshold)
    && (forall j :: 0 <= j < n && Qualifies(sims[j], threshold) ==> sims[j] <= sims[k])
    && (forall j :: 0 <= j < k && Qualifies(sims[j], threshold) ==> sims[j] < sims[k])
  }

  /** `k` holds the largest qualifying similarity, and no earlier row holds
      one as large. */
  predicate IsFirstBest(sims: seq<real>, threshold: real, k: nat) {
    IsBestAmong(sims, threshold, |sims|, k)
  }

  /** The first index of the largest qualifying similarity, if any. */
  function FirstBest(sims: seq<real>, threshold: real): Option<nat> {
    if sims == [] then None
    else
      var rest := FirstBest(sims[1..], threshold);
      if Qualifies(sims[0], threshold) && (rest.None? || rest.value + 1 >= |sims| || sims[0] >= sims[rest.value + 1]) then Some(0)
      else if rest.Some? then Some(rest.value + 1)
      else None
  }

  lemma {:induction false} FirstBestSpec(sims: seq<real>, threshold: real)
    ensures FirstBest(sims, threshold).Some? ==> IsFirstBest(sims, threshold, FirstBest(sims, threshold).value)
    ensures FirstBest(sims, threshold).None? ==> forall j :: 0 <= j < |sims| ==> !Qualifies(sims[j], threshold)
  {
    if sims != [] {
      var tail := sims[1..];
      FirstBestSpec(tail, threshold);
      var rest := FirstBest(tail, threshold);
      if rest.Some? {
        assert sims[rest.value + 1] == tail[rest.value];
        forall j | 0 < j < |sims| && Qualifies(sims[j], threshold) ensures sims[j] <= sims[rest.value + 1] {
          assert sims[j] == tail[j - 1];
        }
        forall j | 0 < j < rest.value + 1 && Qualifies(sims[j], threshold) ensures sims[j] < sims[rest.value + 1] {
          assert sims[j] == tail[j - 1];
        }
      } else {
        forall j | 0 < j < |sims| ensures !Qualifies(sims[j], threshold) {
          assert sims[j] == tail[j - 1];
        }
      }
    }
  }

  /** There is only one first best index. */
  lemma FirstBestUnique(sims: seq<real>, threshold: real, k1: nat, k2: nat)
    requires IsFirstBest(sims, threshold, k1) && IsFirstBest(sims, threshold, k2)
    ensures k1 == k2
  {
  }

  /** The first index whose similarity exceeds `bound`, if any. */
  function FirstAbove(sims: seq<real>, bound: real): (r: Option<nat>)
    ensures r.Some? ==> r.value < |sims| && sims[r.value] > bound && forall j :: 0 <= j < r.value ==> sims[j] <= bound
    ensures r.None? ==> forall j :: 0 <= j < |sims| ==> sims[j] <= bound
  {
    if sims == [] then None
    else if sims[0] > bound then Some(0)
    else
      var rest := FirstAbove(sims[1..], bound);
      assert forall j :: 0 < j < |sims| ==> sims[j] == sims[1..][j - 1];
      if rest.Some? then Some(rest.value + 1) else None
  }

  /** What the search returns for these similarities: the first almost
      exact row if there is one, otherwise the first best qualifying row. */
  function BestIndex(sims: seq<real>, threshold: real): Option<nat> {
    var exact := FirstAbove(sims, NearExact);
    if exact.Some? then exact else FirstBest(sims, threshold)
  }

  /** What the search knows after the first `i` rows, when none of them was
      almost exact: `best` is 0 and nothing qualified, or `bestIndex` is the
      first best among them and `best` its similarity. */
  predicate ScanState(sims: seq<real>, threshold: real, i: nat, best: real, bestIndex: Option<nat>) {
    && i <= |sims|
    && (forall j :: 0 <= j < i ==> sims[j] <= NearExact)
    && (bestIndex.None? ==> best == 0.0 && forall j :: 0 <= j < i ==> !Qualifies(sims[j], threshold))
    && (bestIndex.Some? ==> IsBestAmong(sims, threshold, i, bestIndex.value) && best == sims[bestIndex.value])
  }

  /** One row of the search: a strictly larger qualifying similarity takes
      the place of the best so far. */
  lemma ScanStep(sims: seq<real>, threshold: real, i: nat, best: real, bestIndex: Option<nat>, best': real, bestIndex': Option<nat>)
    requires ScanState(sims, threshold, i, best, bestIndex) && i < |sims| && sims[i] <= NearExact
    requires if sims[i] > best && sims[i] >= threshold then best' == sims[i] && bestIndex' == Some(i) else best' == best && bestIndex' == bestIndex
    ensures ScanState(sims, threshold, i + 1, best', bestIndex')
  {
  }

  /** Stopping at the first similarity above 0.9 returns what BestIndex
      describes. */
  lemma ScanExit(sims: seq<real>, threshold: real, i: nat, best: real, bestIndex: Option<nat>)
    requires ScanState(sims, threshold, i, best, bestIndex) && i < |sims| && sims[i] > NearExact
    ensures BestIndex(sims, threshold) == Some(i)
  {
  }

  /** After the last row the best so far is what BestIndex describes. */
  lemma ScanEnd(sims: seq<real>, threshold: real, best: real, bestIndex: Option<nat>)
    requires ScanState(sims, threshold, |sims|, best, bestIndex)
    ensures BestIndex(sims, threshold) == bestIndex
  {
    FirstBestSpec(sims, threshold);
    if bestIndex.Some? {
      FirstBestUnique(sims, threshold, bestIndex.value, FirstBest(sims, threshold).value);
    }
  }

  /** The loop of `encontrar_melhor_correspondencia`: one pass over the rows
      keeping the best score so far, replaced only by a strictly larger
      qualifying one, and an early return at the first score above 0.9. */
  method Scan(score: Row -> real, rows: seq<Row>, threshold: real) returns (r: Option<nat>)
    ensures r == BestIndex(Scores(score, rows), threshold)
  {
    ghost var sims := Scores(score, rows);
    var best: real := 0.0;
    var bestIndex: Option<nat> := None;
    var i := 0;
    while i < |rows|
      invariant ScanState(sims, threshold, i, best, bestIndex)
    {
      var similarity := score(rows[i]);
      ghost var previous, previousIndex := best, bestIndex;
      if similarity > best && similarity >= threshold {
        best := similarity;
        bestIndex := Some(i);
      }
      if similarity > NearExact {
        ScanExit(sims, threshold, i, previous, previousIndex);
        return Some(i);
      }
      ScanStep(sims, threshold, i, previous, previousIndex, best, bestIndex);
      i := i + 1;
    }
    ScanEnd(sims, threshold, best, bestIndex);
    r := bestIndex;
  }

  /** `encontrar_melhor_correspondencia(nome_aluno, inscritos, limiar)`: the
      student name is normalised once and every enrollment name is compared
      with it. */
  method FindBestMatch(ratio: RatioFn, name: string, rows: seq<Row>, threshold: real) returns (r: Option<nat>)
    ensures r == BestIndex(Similarities(ratio, name, rows), threshold)
  {
    var target := Normalize(name);
    r := Scan(NameScore(ratio, target), rows, threshold);
  }

  /** For a threshold in (0, 0.9], the search finds nothing exactly when no
      similarity reaches the threshold. */
  lemma BestIndexNone(sims: seq<real>, threshold: real)
    requires 0.0 < threshold <= NearExact
    ensures BestIndex(sims, threshold).None? <==> forall j :: 0 <= j < |sims| ==> sims[j] < threshold
  {
    FirstBestSpec(sims, threshold);
  }

  /** A row found by the search is either almost exact or reaches the
      threshold, and no qualifying row is more similar unless an almost exact
      row came first. */
  lemma BestIndexFound(sims: seq<real>, threshold: real)
    requires BestIndex(sims, threshold).Some?
    ensures var k := BestIndex(sims, threshold).value;
      && k < |sims|
      && (sims[k] > NearExact || sims[k] >= threshold)
      && (sims[k] <= NearExact ==> forall j :: 0 <= j < |sims| && Qualifies(sims[j], threshold) ==> sims[j] <= sims[k])
  {
    FirstBestSpec(sims, threshold);
  }

  /** A similarity above 0.9 is always found: the search returns the first
      such row, at or before it. */
  lemma NearExactFound(sims: seq<real>, threshold: real, k: nat)
    requires k < |sims| && sims[k] > NearExact
    ensures var r := BestIndex(sims, threshold);
      r.Some? && r.value <= k && sims[r.value] > NearExact
  {
  }

  /** An enrollment whose name normalises to the student's own is always
      found: the search returns the first row whose similarity exceeds 0.9,
      at or before it. */
  lemma ExactNameFound(ratio: RatioFn, name: string, rows: seq<Row>, threshold: real, k: nat)
    requires k < |rows| && Normalize(CellText(rows[k], NameColumn)) == Normalize(name)
    ensures var r := BestIndex(Similarities(ratio, name, rows), threshold);
      r.Some? && r.value <= k && Similarities(ratio, name, rows)[r.value] > NearExact
  {
    var sims := Similarities(ratio, name, rows);
    assert sims[k] == RowSimilarity(ratio, Normalize(name), rows[k]) == 1.0;
    NearExactFound(sims, threshold, k);
  }

  /** A row without a name column is compared with "", and a row whose name
      is missing with "nan", the text str() gives a missing value. */
  lemma MissingNameSimilarity(ratio: RatioFn, name: string, rows: seq<Row>, k: nat)
    requires k < |rows|
    ensures NameColumn !in rows[k] ==>
      Similarities(ratio, name, rows)[k] == ratio(Normalize(name), "")
    ensures NameColumn in rows[k] && rows[k][NameColumn].None? ==>
      Similarities(ratio, name, rows)[k] == ratio(Normalize(name), "nan")
  {
    var sims := Similarities(ratio, name, rows);
    assert sims[k] == ratio(Normalize(name), Normalize(CellText(rows[k], NameColumn)));
    if NameColumn !in rows[k] {
      NormalEmpty();
    } else if rows[k][NameColumn].None? {
      NormalNan();
    }
  }

  lemma NormalEmpty()
    ensures Normalize("") == ""
  {
    NormalIsFixed("");
  }

  lemma NormalNan()
    ensures Normalize("nan") == "nan"
  {
    var s := "nan";
    assert s == ['n', 'a', 'n'];
    AsciiLettersNormal(['n', 'a', 'n']);
    NormalIsFixed(s);
  }

  /** A text of small ASCII letters is already in normal form. */
  lemma AsciiLettersNormal(s: string)
    requires forall i :: 0 <= i < |s| ==> 'a' <= s[i] <= 'z'
    ensures IsNormal(s)
  {
    AccentTableShape();
    forall i | 0 <= i < |s| ensures !IsAccented(s[i]) {
      ValuesNotReplaced(Accents, s[i]);
    }
  }
}
