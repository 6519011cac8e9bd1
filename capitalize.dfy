/** The name capitaliser (`capitalizar_nome`): every word of a name with its
    first letter in upper case, except the Portuguese connectors after the
    first word, which stay in lower case. */
module Capitalization {
  import opened Text

  /** The words kept in lower case when they are not the first word. */
  const Connectors: seq<string> := ["de", "da", "do", "dos", "das", "e"]

  /** Python's str.capitalize(): the first character in upper case and the
      rest in lower case. */
  function CapitalizeWord(w: string): (r: string)
    ensures |r| == |w|
  {
    if w == [] then [] else [Upper(w[0])] + LowerStr(w[1..])
  }

  /** The word at position `i` of the lower-cased name, as it is written out. */
  function CapWord(i: nat, w: string): string {
    if i > 0 && w in Connectors then w else CapitalizeWord(w)
  }

  function CapAll(ws: seq<string>): (r: seq<string>)
    ensures |r| == |ws| && forall k :: 0 <= k < |ws| ==> r[k] == CapWord(k, ws[k])
  {
    seq(|ws|, k requires 0 <= k < |ws| => CapWord(k, ws[k]))
  }

  /** What `capitalizar_nome` returns for a string. */
  function Capitalized(s: string): string {
    Join(CapAll(Words(LowerStr(s))), " ")
  }

  /** The loop of `capitalizar_nome`: each word rewritten according to its
      position. */
  method CapitalizeWords(words: seq<string>) returns (result: seq<string>)
    ensures result == CapAll(words)
  {
    result := [];
    var i := 0;
    while i < |words|
      invariant 0 <= i <= |words|
      invariant |result| == i
      invariant forall k :: 0 <= k < i ==> result[k] == CapWord(k, words[k])
    {
      if i > 0 && words[i] in Connectors {
        result := result + [words[i]];
      } else {
        result := result + [CapitalizeWord(words[i])];
      }
      i := i + 1;
    }
  }

  /** `capitalizar_nome` itself: None and "" give "", otherwise the words of
      the lower-cased name are rewritten one by one and joined by spaces. */
  method CapitalizeName(name: Option<string>) returns (r: string)
    ensures name.None? ==> r == ""
    ensures name.Some? ==> r == Capitalized(name.value)
  {
    if name.None? || name.value == "" {
      return "";
    }
    var result := CapitalizeWords(Words(LowerStr(name.value)));
    r := Join(result, " ");
  }

  lemma CapWordIsWord(i: nat, w: string)
    requires IsWord(w)
    ensures IsWord(CapWord(i, w))
  {
    var r := CapWord(i, w);
    forall j | 0 <= j < |r| ensures !IsSpace(r[j]) {
      LowerFacts(w[j]);
    }
  }

  lemma CapAllAreWords(ws: seq<string>)
    requires forall k :: 0 <= k < |ws| ==> IsWord(ws[k])
    ensures forall k :: 0 <= k < |ws| ==> IsWord(CapAll(ws)[k])
  {
    forall k | 0 <= k < |ws| ensures IsWord(CapAll(ws)[k]) {
      CapWordIsWord(k, ws[k]);
    }
  }

  /** Capitalising a word ignores the case it came in. */
  lemma CapitalizeWordOfLower(w: string)
    ensures CapitalizeWord(LowerStr(w)) == CapitalizeWord(w)
  {
    if w != [] {
      LowerFacts(w[0]);
      var a := CapitalizeWord(LowerStr(w));
      forall j | 1 <= j < |w| ensures a[j] == Lower(w[j]) {
        LowerFacts(w[j]);
      }
    }
  }

  /** The result, word by word: the input has as many words as the result;
      a connector after the first word is written in lower case, every other
      word is capitalised; and the words are joined by single spaces. */
  lemma CapitalizedWords(s: string)
    ensures var ws := Words(s); var out := Words(Capitalized(s));
      && |out| == |ws|
      && (forall k :: 0 <= k < |ws| && k > 0 && LowerStr(ws[k]) in Connectors ==> out[k] == LowerStr(ws[k]))
      && (forall k :: 0 <= k < |ws| && !(k > 0 && LowerStr(ws[k]) in Connectors) ==> out[k] == CapitalizeWord(ws[k]))
      && Capitalized(s) == Join(out, " ")
  {
    var ws := Words(s);
    WordsOfLower(s);
    var lowered := Words(LowerStr(s));
    assert lowered == LowerAll(ws);
    CapAllAreWords(lowered);
    WordsOfJoin(CapAll(lowered));
    forall k | 0 <= k < |ws| ensures CapitalizeWord(lowered[k]) == CapitalizeWord(ws[k]) {
      CapitalizeWordOfLower(ws[k]);
    }
  }

  /** The result never has white space at either end, two white-space
      characters in a row, or white space other than ' '; it is empty exactly
      when the input has no word. */
  lemma CapitalizedShape(s: string)
    ensures var r := Capitalized(s);
      && (r != [] ==> !IsSpace(r[0]) && !IsSpace(r[|r| - 1]))
      && (forall i :: 0 <= i < |r| && IsSpace(r[i]) ==> r[i] == ' ')
      && (forall i :: 0 <= i < |r| - 1 ==> !(IsSpace(r[i]) && IsSpace(r[i + 1])))
      && (r == [] <==> Words(s) == [])
  {
    WordsOfLower(s);
    var lowered := Words(LowerStr(s));
    CapAllAreWords(lowered);
    JoinShape(CapAll(lowered));
  }

  /** The first character of a join is the first character of its first
      element. */
  lemma JoinFirst(ws: seq<string>, sep: string)
    requires ws != [] && ws[0] != []
    ensures Join(ws, sep) != [] && Join(ws, sep)[0] == ws[0][0]
  {
    if |ws| > 1 {
      assert Join(ws, sep) == ws[0] + sep + Join(ws[1..], sep);
    }
  }

  /** The first word of a non-blank name starts with the upper-case form of
      its first letter. */
  lemma CapitalizedFirstLetter(s: string)
    requires Words(s) != []
    ensures Capitalized(s) != [] && Capitalized(s)[0] == Upper(Words(s)[0][0])
  {
    var first := Words(s)[0];
    WordsOfLower(s);
    var lowered := Words(LowerStr(s));
    assert lowered[0] == LowerStr(first);
    var out := CapAll(lowered);
    assert out[0] == CapitalizeWord(LowerStr(first));
    CapitalizeWordOfLower(first);
    JoinFirst(out, " ");
  }

  /** Lower-casing a written-out word gives back the lower-case word. */
  lemma LowerCapWord(i: nat, w: string)
    requires IsLowered(w)
    ensures LowerStr(CapWord(i, w)) == w
  {
    var r := CapWord(i, w);
    forall j | 0 <= j < |w| ensures Lower(r[j]) == w[j] {
      LowerFacts(w[j]);
    }
  }

  /** Rewriting lower-case words, lower-casing them again and rewriting once
      more gives the first rewriting. */
  lemma CapAllOfLowered(ws: seq<string>)
    requires forall k :: 0 <= k < |ws| ==> IsLowered(ws[k])
    ensures CapAll(LowerAll(CapAll(ws))) == CapAll(ws)
  {
    forall k | 0 <= k < |ws| ensures LowerAll(CapAll(ws))[k] == ws[k] {
      LowerCapWord(k, ws[k]);
    }
    assert LowerAll(CapAll(ws)) == ws;
  }

  /** The words of a lower-cased text are lower-case words. */
  lemma LoweredWords(s: string)
    ensures forall k :: 0 <= k < |Words(LowerStr(s))| ==> IsLowered(Words(LowerStr(s))[k])
  {
    WordsOfLower(s);
    forall k | 0 <= k < |Words(s)| ensures IsLowered(LowerStr(Words(s)[k])) {
      LowerStrIsLowered(Words(s)[k]);
    }
  }

  /** Capitalising a capitalised name changes nothing. */
  lemma CapitalizedIdempotent(s: string)
    ensures Capitalized(Capitalized(s)) == Capitalized(s)
  {
    var lowered := Words(LowerStr(s));
    var out := CapAll(lowered);
    CapAllAreWords(lowered);
    WordsOfJoin(out);
    WordsOfLower(Join(out, " "));
    LoweredWords(s);
    CapAllOfLowered(lowered);
  }
}
