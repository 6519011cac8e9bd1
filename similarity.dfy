/** Name similarity (`nomes_similares`): whether a name on the attendance
    sheet and a name on the enrollment form denote the same student. The
    character-level similarity ratio (difflib's SequenceMatcher.ratio) is a
    parameter of the model. */
module Similarity {
  import opened Text
  import opened Normalization

  /** A similarity ratio: a value between 0 and 1, and 1 for equal texts. */
  type RatioFn = f: (string, string) -> real
    | (forall a, b :: 0.0 <= f(a, b) <= 1.0) && (forall a :: f(a, a) == 1.0)
    witness (a: string, b: string) => if a == b then 1.0 else 0.0

  /** Default threshold of `nomes_similares`. */
  const DefaultThreshold: real := 0.6

  /** Words ignored by the word-level comparison. */
  const CommonWords: set<string> := {"de", "da", "do", "dos", "das", "e", "a", "o", "as", "os"}

  /** Given names that never count as a surname. */
  const GivenNames: set<string> := {"jose", "maria", "joao", "pedro", "ana"}

  /** Python's set(s.split()). */
  function WordSet(s: string): set<string> {
    set w | w in Words(s)
  }

  /** The two word sets compared: the words of each name without the common
      words, or all the words of both names when that leaves either empty. */
  function ComparedWords(a: string, b: string): (r: (set<string>, set<string>))
    ensures r.0 <= WordSet(a) && r.1 <= WordSet(b)
  {
    var w1 := WordSet(a) - CommonWords;
    var w2 := WordSet(b) - CommonWords;
    if w1 == {} || w2 == {} then (WordSet(a), WordSet(b)) else (w1, w2)
  }

  /** The Jaccard index of two word sets reaches the threshold; false when
      both are empty. */
  predicate JaccardAtLeast(w1: set<string>, w2: set<string>, threshold: real) {
    |w1 + w2| > 0 && (|w1 * w2| as real) / (|w1 + w2| as real) >= threshold
  }

  /** The surname candidates of a word set: words longer than three letters
      that are not common given names. */
  function Surnames(ws: set<string>): (r: set<string>)
    ensures r <= ws
  {
    set w | w in ws && |w| > 3 && w !in GivenNames
  }

  /** At least one surname candidate in common, and the common ones make up
      at least half of the candidates of one of the two names. */
  predicate SharedSurnames(w1: set<string>, w2: set<string>) {
    var s1 := Surnames(w1);
    var s2 := Surnames(w2);
    var common := s1 * s2;
    && s1 != {} && s2 != {} && common != {}
    && ((|common| as real) / (|s1| as real) >= 0.5 || (|common| as real) / (|s2| as real) >= 0.5)
  }

  /** The word-level tests of `nomes_similares`: the Jaccard index of the
      compared word sets reaches the threshold, or they share surnames. */
  predicate WordsSimilar(a: string, b: string, threshold: real) {
    var (w1, w2) := ComparedWords(a, b);
    JaccardAtLeast(w1, w2, threshold) || SharedSurnames(w1, w2)
  }

  /** `nomes_similares` on two normalised names, with its tests in the
      source's order: equal; ratio at least the threshold; one contained in
      the other; the word-level tests. */
  predicate SimilarNormalized(ratio: RatioFn, a: string, b: string, threshold: real) {
    if a == b then true
    else if ratio(a, b) >= threshold then true
    else if Contains(b, a) || Contains(a, b) then true
    else WordsSimilar(a, b, threshold)
  }

  /** `nomes_similares(nome1, nome2, limiar)`: the names are normalised first. */
  predicate NamesSimilar(ratio: RatioFn, name1: string, name2: string, threshold: real) {
    SimilarNormalized(ratio, Normalize(name1), Normalize(name2), threshold)
  }

  /** A name is similar to itself. */
  lemma NamesSimilarReflexive(ratio: RatioFn, name: string, threshold: real)
    ensures NamesSimilar(ratio, name, name, threshold)
  {
  }

  /** A name that normalises to "" is similar to every name, both ways:
      the empty text is contained in every text. */
  lemma EmptyNameSimilarToAll(ratio: RatioFn, empty: string, other: string, threshold: real)
    requires Normalize(empty) == ""
    ensures NamesSimilar(ratio, empty, other, threshold)
    ensures NamesSimilar(ratio, other, empty, threshold)
  {
    ContainsSelf(Normalize(other));
  }

  lemma WordsSimilarMonotone(a: string, b: string, low: real, high: real)
    requires low <= high && WordsSimilar(a, b, high)
    ensures WordsSimilar(a, b, low)
  {
    var (w1, w2) := ComparedWords(a, b);
    if JaccardAtLeast(w1, w2, high) {
      assert JaccardAtLeast(w1, w2, low);
    }
  }

  /** Lowering the threshold never turns similar names into dissimilar ones. */
  lemma NamesSimilarMonotone(ratio: RatioFn, name1: string, name2: string, low: real, high: real)
    requires low <= high
    requires NamesSimilar(ratio, name1, name2, high)
    ensures NamesSimilar(ratio, name1, name2, low)
  {
    var a := Normalize(name1);
    var b := Normalize(name2);
    if a != b && ratio(a, b) < high && !Contains(b, a) && !Contains(a, b) {
      WordsSimilarMonotone(a, b, low, high);
    }
  }

  lemma SetTestsSymmetric(w1: set<string>, w2: set<string>, threshold: real)
    ensures JaccardAtLeast(w1, w2, threshold) == JaccardAtLeast(w2, w1, threshold)
    ensures SharedSurnames(w1, w2) == SharedSurnames(w2, w1)
  {
    assert w1 + w2 == w2 + w1 && w1 * w2 == w2 * w1;
    assert Surnames(w1) * Surnames(w2) == Surnames(w2) * Surnames(w1);
  }

  lemma WordsSimilarSymmetric(a: string, b: string, threshold: real)
    ensures WordsSimilar(a, b, threshold) == WordsSimilar(b, a, threshold)
  {
    var (w1, w2) := ComparedWords(a, b);
    assert ComparedWords(b, a) == (w2, w1);
    SetTestsSymmetric(w1, w2, threshold);
  }

  /** With a symmetric ratio the relation is symmetric. difflib's ratio is
      not symmetric in general (it depends on the order of its arguments),
      so this is not a property of `nomes_similares` itself: only the word
      tests are symmetric for every ratio (WordsSimilarSymmetric). */
  lemma NamesSimilarSymmetric(ratio: RatioFn, name1: string, name2: string, threshold: real)
    requires forall x, y :: ratio(x, y) == ratio(y, x)
    ensures NamesSimilar(ratio, name1, name2, threshold) == NamesSimilar(ratio, name2, name1, threshold)
  {
    WordsSimilarSymmetric(Normalize(name1), Normalize(name2), threshold);
  }

  /** A trimmed non-empty text has a word. */
  lemma HasWord(s: string)
    requires s != [] && !IsSpace(s[0])
    ensures s[..WordEnd(s)] in Words(s)
  {
    assert TrimLeft(s) == s;
  }

  /** A non-empty word set compared with itself has Jaccard index 1. */
  lemma JaccardOfSame(w: set<string>, threshold: real)
    requires w != {} && threshold <= 1.0
    ensures JaccardAtLeast(w, w, threshold)
  {
    assert w + w == w && w * w == w;
  }

  /** Two texts with the same non-empty word set pass the word-level tests
      for every threshold up to 1. */
  lemma SameWordSetSimilar(a: string, b: string, threshold: real)
    requires WordSet(a) == WordSet(b) && WordSet(a) != {}
    requires threshold <= 1.0
    ensures WordsSimilar(a, b, threshold)
  {
    var ws := WordSet(a);
    var (w1, w2) := ComparedWords(a, b);
    assert w1 == w2 && w1 != {} by {
      if ws - CommonWords == {} {
        assert (w1, w2) == (ws, ws);
      } else {
        assert (w1, w2) == (ws - CommonWords, ws - CommonWords);
      }
    }
    JaccardOfSame(w1, threshold);
  }

  /** Names made of the same words, in any order, are similar for every
      threshold up to 1. */
  lemma SameWordsSimilar(ratio: RatioFn, name1: string, name2: string, threshold: real)
    requires WordSet(Normalize(name1)) == WordSet(Normalize(name2))
    requires threshold <= 1.0
    ensures NamesSimilar(ratio, name1, name2, threshold)
  {
    var a := Normalize(name1);
    if a == [] {
      EmptyNameSimilarToAll(ratio, name1, name2, threshold);
    } else {
      NormalizeShape(name1);
      HasWord(a);
      assert a[..WordEnd(a)] in WordSet(a);
      SameWordSetSimilar(a, Normalize(name2), threshold);
    }
  }

  /** Disjoint word sets have Jaccard index 0 and no common surname. */
  lemma DisjointSetsNotSimilar(w1: set<string>, w2: set<string>, threshold: real)
    requires threshold > 0.0 && w1 * w2 == {}
    ensures !JaccardAtLeast(w1, w2, threshold) && !SharedSurnames(w1, w2)
  {
    assert |w1 * w2| == 0;
    assert Surnames(w1) * Surnames(w2) <= w1 * w2;
  }

  /** Texts that share no word fail the word-level tests for any positive
      threshold. */
  lemma DisjointWordsNotSimilar(a: string, b: string, threshold: real)
    requires threshold > 0.0 && WordSet(a) * WordSet(b) == {}
    ensures !WordsSimilar(a, b, threshold)
  {
    var (w1, w2) := ComparedWords(a, b);
    assert w1 * w2 <= WordSet(a) * WordSet(b);
    DisjointSetsNotSimilar(w1, w2, threshold);
  }

  /** Names whose normalised forms have a ratio below the threshold, are not
      contained in one another and share no word are not similar, for any
      positive threshold. */
  lemma NothingSharedNotSimilar(ratio: RatioFn, name1: string, name2: string, threshold: real)
    requires threshold > 0.0
    requires var a := Normalize(name1); var b := Normalize(name2);
      && ratio(a, b) < threshold
      && !Contains(b, a) && !Contains(a, b)
      && WordSet(a) * WordSet(b) == {}
    ensures !NamesSimilar(ratio, name1, name2, threshold)
  {
    var a := Normalize(name1);
    var b := Normalize(name2);
    if a == b {
      ContainsSelf(a);
    }
    DisjointWordsNotSimilar(a, b, threshold);
  }
}
