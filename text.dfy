/** Character and string primitives the reconciliation code relies on: Python's
    str.lower, str.upper, str.strip, str.split, the `in` substring test and
    str.join, over an explicit alphabet (ASCII and Latin-1). */
module Text {

  datatype Option<T> = None | Some(value: T) {
    /** Python's `d.get(key, default)` once the lookup has been made. */
    function GetOr(default: T): T {
      if Some? then value else default
    }
  }

  /** Python's str.isspace, restricted to ASCII and Latin-1: tab to carriage
      return, the four ASCII separators, NEL, the space and the no-break space. */
  predicate IsSpace(c: char) {
    c == ' ' || ('\t' <= c <= '\r') || ('\U{1C}' <= c <= '\U{1F}') || c == '\U{85}' || c == '\U{A0}'
  }

  /** Python's str.lower on one character: A-Z and the Latin-1 capitals
      (U+00C0..U+00DE except the multiplication sign). */
  function Lower(c: char): char {
    if 'A' <= c <= 'Z' || ('\U{C0}' <= c <= '\U{DE}' && c != '\U{D7}') then (c as int + 32) as char else c
  }

  /** Python's str.upper on one character: a-z and the Latin-1 small letters
      (U+00E0..U+00FE except the division sign). */
  function Upper(c: char): char {
    if 'a' <= c <= 'z' || ('\U{E0}' <= c <= '\U{FE}' && c != '\U{F7}') then (c as int - 32) as char else c
  }

  lemma LowerFacts(c: char)
    ensures Lower(Lower(c)) == Lower(c)
    ensures Lower(Upper(c)) == Lower(c)
    ensures Upper(Lower(c)) == Upper(c)
    ensures IsSpace(Lower(c)) == IsSpace(c) && IsSpace(Upper(c)) == IsSpace(c)
  {
  }

  function LowerStr(s: string): (r: string)
    ensures |r| == |s| && forall i :: 0 <= i < |s| ==> r[i] == Lower(s[i])
  {
    seq(|s|, i requires 0 <= i < |s| => Lower(s[i]))
  }

  function UpperStr(s: string): (r: string)
    ensures |r| == |s| && forall i :: 0 <= i < |s| ==> r[i] == Upper(s[i])
  {
    seq(|s|, i requires 0 <= i < |s| => Upper(s[i]))
  }

  /** Every character is already its own lower-case form. */
  predicate IsLowered(s: string) {
    forall i :: 0 <= i < |s| ==> Lower(s[i]) == s[i]
  }

  lemma LowerStrIsLowered(s: string)
    ensures IsLowered(LowerStr(s))
  {
    forall i | 0 <= i < |s| ensures Lower(LowerStr(s)[i]) == LowerStr(s)[i] {
      LowerFacts(s[i]);
    }
  }

  lemma LowerStrSplit(s: string, n: nat)
    requires n <= |s|
    ensures LowerStr(s)[..n] == LowerStr(s[..n]) && LowerStr(s)[n..] == LowerStr(s[n..])
  {
  }

  // ---------------------------------------------------------------- strip

  /** Python's str.lstrip(). */
  function TrimLeft(s: string): (r: string)
    ensures |r| <= |s| && r == s[|s| - |r|..]
    ensures r != [] ==> !IsSpace(r[0])
  {
    if s != [] && IsSpace(s[0]) then TrimLeft(s[1..]) else s
  }

  /** lstrip() never removes a last character that is not white space. */
  lemma {:induction false} TrimLeftKeepsLast(s: string)
    requires s != [] && !IsSpace(s[|s| - 1])
    ensures TrimLeft(s) != [] && TrimLeft(s)[|TrimLeft(s)| - 1] == s[|s| - 1]
  {
    if IsSpace(s[0]) {
      TrimLeftKeepsLast(s[1..]);
    }
  }

  /** Python's str.rstrip(). */
  function TrimRight(s: string): (r: string)
    ensures |r| <= |s| && r == s[..|r|]
    ensures r != [] ==> !IsSpace(r[|r| - 1])
  {
    if s != [] && IsSpace(s[|s| - 1]) then TrimRight(s[..|s| - 1]) else s
  }

  /** Where Python's str.strip() starts cutting: the number of leading spaces. */
  function StripStart(s: string): nat {
    |s| - |TrimLeft(s)|
  }

  /** Python's str.strip(): the longest slice with no white space at either end. */
  function Strip(s: string): (r: string)
    ensures r != [] ==> !IsSpace(r[0]) && !IsSpace(r[|r| - 1])
    ensures StripStart(s) + |r| <= |s| && r == s[StripStart(s)..StripStart(s) + |r|]
  {
    var l := TrimLeft(s);
    var r := TrimRight(l);
    var k := |s| - |l|;
    assert l == s[k..] && r == l[..|r|];
    assert s[k..][..|r|] == s[k..k + |r|];
    r
  }

  lemma StripNoEdgeSpace(s: string)
    requires s != [] ==> !IsSpace(s[0]) && !IsSpace(s[|s| - 1])
    ensures Strip(s) == s
  {
  }

  // ------------------------------------------------------------ substring

  /** Python's `n in h` on strings. */
  predicate Contains(h: string, n: string)
    decreases |h|
  {
    n <= h || (h != [] && Contains(h[1..], n))
  }

  /** `n` occurs in `h` starting at index `a`. */
  predicate OccursAt(h: string, n: string, a: nat) {
    a + |n| <= |h| && h[a..a + |n|] == n
  }

  lemma {:induction false} ContainsOccurrence(h: string, n: string) returns (a: nat)
    requires Contains(h, n)
    ensures OccursAt(h, n, a)
    decreases |h|
  {
    if n <= h {
      a := 0;
      assert h[0..|n|] == n;
    } else {
      var b := ContainsOccurrence(h[1..], n);
      a := b + 1;
      assert h[a..a + |n|] == h[1..][b..b + |n|];
    }
  }

  lemma {:induction false} OccurrenceContains(h: string, n: string, a: nat)
    requires OccursAt(h, n, a)
    ensures Contains(h, n)
    decreases a
  {
    if a == 0 {
      assert n <= h;
    } else {
      assert h[1..][a - 1..a - 1 + |n|] == h[a..a + |n|];
      OccurrenceContains(h[1..], n, a - 1);
    }
  }

  /** Containment of strings is transitive. */
  lemma ContainsTransitive(h: string, m: string, n: string)
    requires Contains(h, m) && Contains(m, n)
    ensures Contains(h, n)
  {
    var a := ContainsOccurrence(h, m);
    var b := ContainsOccurrence(m, n);
    assert forall i :: 0 <= i < |n| ==> h[a + b + i] == m[b + i] == n[i];
    OccurrenceContains(h, n, a + b);
  }

  lemma ContainsSuffix(a: string, b: string)
    ensures Contains(a + b, b)
  {
    assert (a + b)[|a|..|a| + |b|] == b;
    OccurrenceContains(a + b, b, |a|);
  }

  lemma ContainsPrefix(a: string, b: string)
    ensures Contains(a + b, a)
  {
    assert a <= a + b;
  }

  lemma ContainsSelf(s: string)
    ensures Contains(s, s) && Contains(s, [])
  {
  }

  // ---------------------------------------------------------------- words

  predicate IsWord(w: string) {
    w != [] && forall i :: 0 <= i < |w| ==> !IsSpace(w[i])
  }

  /** Length of the leading run of non-space characters. */
  function WordEnd(s: string): (n: nat)
    ensures n <= |s|
    ensures forall i :: 0 <= i < n ==> !IsSpace(s[i])
    ensures n < |s| ==> IsSpace(s[n])
  {
    if s == [] || IsSpace(s[0]) then 0 else 1 + WordEnd(s[1..])
  }

  /** Python's str.split() with no argument: maximal runs of non-space
      characters, in order. */
  function Words(s: string): (ws: seq<string>)
    ensures forall k :: 0 <= k < |ws| ==> IsWord(ws[k])
    decreases |s|
  {
    var t := TrimLeft(s);
    if t == [] then []
    else
      var n := WordEnd(t);
      FirstWord(t);
      var rest := Words(t[n..]);
      AllWordsCons(t[..n], rest);
      [t[..n]] + rest
  }

  /** A text starting with a non-space character starts with a word. */
  lemma FirstWord(t: string)
    requires t != [] && !IsSpace(t[0])
    ensures WordEnd(t) > 0 && IsWord(t[..WordEnd(t)])
  {
  }

  lemma AllWordsCons(w: string, ws: seq<string>)
    requires IsWord(w) && forall k :: 0 <= k < |ws| ==> IsWord(ws[k])
    ensures forall k :: 0 <= k < |ws| + 1 ==> IsWord(([w] + ws)[k])
  {
  }

  /** `sep.join(ws)`. */
  function Join(ws: seq<string>, sep: string): string {
    if ws == [] then []
    else if |ws| == 1 then ws[0]
    else ws[0] + sep + Join(ws[1..], sep)
  }

  lemma {:induction false} WordEndOfWord(w: string, tail: string)
    requires IsWord(w)
    requires tail == [] || IsSpace(tail[0])
    ensures WordEnd(w + tail) == |w|
    decreases |w|
  {
    if |w| > 1 {
      assert (w + tail)[1..] == w[1..] + tail;
      WordEndOfWord(w[1..], tail);
    }
  }

  lemma WordsSpacePrefix(s: string)
    requires s != [] && IsSpace(s[0])
    ensures Words(s) == Words(s[1..])
  {
    assert TrimLeft(s) == TrimLeft(s[1..]);
  }

  /** A word followed by white space (or nothing) is the first word. */
  lemma WordsCons(w: string, rest: string)
    requires IsWord(w)
    requires rest == [] || IsSpace(rest[0])
    ensures Words(w + rest) == [w] + Words(rest)
  {
    var s := w + rest;
    assert TrimLeft(s) == s;
    WordEndOfWord(w, rest);
    assert s[..|w|] == w;
    assert s[|w|..] == rest;
  }

  /** A word, a space and a text: the word, then the words of the text. */
  lemma WordsSpaceJoin(w: string, t: string, ts: seq<string>)
    requires IsWord(w) && Words(t) == ts
    ensures Words(w + " " + t) == [w] + ts
  {
    var rest := " " + t;
    assert w + " " + t == w + rest;
    WordsCons(w, rest);
    WordsSpacePrefix(rest);
    assert rest[1..] == t;
  }

  /** Splitting a single-space join of words gives the words back. */
  lemma {:induction false} WordsOfJoin(ws: seq<string>)
    requires forall k :: 0 <= k < |ws| ==> IsWord(ws[k])
    ensures Words(Join(ws, " ")) == ws
  {
    if |ws| == 1 {
      var w := ws[0];
      assert Join(ws, " ") == w;
      WordsCons(w, []);
      assert w + [] == w;
      HeadTail(ws);
    } else if |ws| > 1 {
      var w, rest := ws[0], ws[1..];
      var t := Join(rest, " ");
      assert Join(ws, " ") == w + " " + t;
      WordsOfJoin(rest);
      WordsSpaceJoin(w, t, rest);
      HeadTail(ws);
    }
  }

  /** A non-empty sequence is its head followed by its tail. */
  lemma HeadTail<T>(s: seq<T>)
    requires s != []
    ensures s == [s[0]] + s[1..]
  {
  }

  /** A single-space join of words has no white space at either end, no two
      white-space characters in a row, and no white space but ' '. */
  lemma {:induction false} JoinShape(ws: seq<string>)
    requires forall k :: 0 <= k < |ws| ==> IsWord(ws[k])
    ensures var s := Join(ws, " ");
      (s != [] ==> !IsSpace(s[0]) && !IsSpace(s[|s| - 1]))
      && (forall i :: 0 <= i < |s| && IsSpace(s[i]) ==> s[i] == ' ')
      && (forall i :: 0 <= i < |s| - 1 ==> !(IsSpace(s[i]) && IsSpace(s[i + 1])))
      && (s == [] <==> ws == [])
  {
    if |ws| > 1 {
      JoinShape(ws[1..]);
      var w := ws[0];
      var t := Join(ws[1..], " ");
      var s := w + " " + t;
      assert Join(ws, " ") == s;
      forall i | 0 <= i < |s| - 1
        ensures !(IsSpace(s[i]) && IsSpace(s[i + 1]))
      {
        if i < |w| - 1 {
        } else if i == |w| - 1 {
        } else if i == |w| {
          assert s[i + 1] == t[0];
        } else {
          assert s[i] == t[i - |w| - 1] && s[i + 1] == t[i - |w|];
        }
      }
      forall i | 0 <= i < |s| && IsSpace(s[i])
        ensures s[i] == ' '
      {
        if i > |w| {
          assert s[i] == t[i - |w| - 1];
        }
      }
    }
  }

  function LowerAll(ws: seq<string>): (r: seq<string>)
    ensures |r| == |ws| && forall k :: 0 <= k < |ws| ==> r[k] == LowerStr(ws[k])
  {
    seq(|ws|, k requires 0 <= k < |ws| => LowerStr(ws[k]))
  }

  lemma LowerAllCons(w: string, ws: seq<string>)
    ensures LowerAll([w] + ws) == [LowerStr(w)] + LowerAll(ws)
  {
  }

  /** One step of str.split(): the first word and what follows it. */
  lemma WordsUnfold(s: string)
    requires TrimLeft(s) != []
    ensures var t := TrimLeft(s); var n := WordEnd(t);
      0 < n && Words(s) == [t[..n]] + Words(t[n..])
  {
  }

  /** Lower-casing commutes with splitting into words. */
  lemma {:induction false} WordsOfLower(s: string)
    ensures Words(LowerStr(s)) == LowerAll(Words(s))
    decreases |s|
  {
    var t := TrimLeft(s);
    TrimLeftLower(s);
    var lt := LowerStr(t);
    if t != [] {
      var n := WordEnd(t);
      WordEndLower(t);
      WordsUnfold(s);
      WordsUnfold(LowerStr(s));
      LowerStrSplit(t, n);
      assert lt[..n] == LowerStr(t[..n]) && lt[n..] == LowerStr(t[n..]);
      WordsOfLower(t[n..]);
      calc {
        Words(LowerStr(s));
        [lt[..n]] + Words(lt[n..]);
        [LowerStr(t[..n])] + Words(LowerStr(t[n..]));
        [LowerStr(t[..n])] + LowerAll(Words(t[n..]));
        { LowerAllCons(t[..n], Words(t[n..])); }
        LowerAll([t[..n]] + Words(t[n..]));
        LowerAll(Words(s));
      }
    }
  }

  lemma {:induction false} TrimLeftLower(s: string)
    ensures TrimLeft(LowerStr(s)) == LowerStr(TrimLeft(s))
    decreases |s|
  {
    if s != [] {
      LowerFacts(s[0]);
      assert LowerStr(s)[1..] == LowerStr(s[1..]);
      TrimLeftLower(s[1..]);
    }
  }

  lemma {:induction false} WordEndLower(s: string)
    ensures WordEnd(LowerStr(s)) == WordEnd(s)
    decreases |s|
  {
    if s != [] {
      LowerFacts(s[0]);
      assert LowerStr(s)[1..] == LowerStr(s[1..]);
      WordEndLower(s[1..]);
    }
  }

  // ---------------------------------------------------------------- split

  function IndexOf(s: string, c: char): (i: nat)
    requires c in s
    ensures i < |s| && s[i] == c && c !in s[..i]
  {
    if s[0] == c then 0 else 1 + IndexOf(s[1..], c)
  }

  /** Python's str.split(d) for a one-character separator: keeps empty parts. */
  function Split(s: string, d: char): (parts: seq<string>)
    ensures |parts| >= 1
    decreases |s|
  {
    if d !in s then [s]
    else
      var i := IndexOf(s, d);
      [s[..i]] + Split(s[i + 1..], d)
  }

  lemma SplitTwo(a: string, b: string, d: char)
    requires d !in a && d !in b
    ensures Split(a + [d] + b, d) == [a, b]
  {
    var s := a + [d] + b;
    assert s[|a|] == d;
    assert s[..|a|] == a;
    assert IndexOf(s, d) == |a|;
    assert s[|a| + 1..] == b;
  }

  /** The first part of a split is the text before the first separator, and
      there is a second part whenever the separator occurs. */
  lemma SplitFirst(a: string, b: string, d: char)
    requires d !in a
    ensures var parts := Split(a + [d] + b, d); |parts| >= 2 && parts[0] == a
  {
    var s := a + [d] + b;
    assert s[|a|] == d;
    assert s[..|a|] == a;
    assert IndexOf(s, d) == |a|;
  }
}
