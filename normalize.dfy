/** The text normaliser (`normalizar_nome`): the canonical form in which names
    and course labels are compared. Lower-case, strip, drop `(...)` groups,
    strip again, replace the accented letters of a fixed table, then collapse
    every run of white space to one space. */
module Normalization {
  import opened Text

  /** The accent table, in the order the source iterates it. */
  const Accents: seq<(char, char)> := [
    ('á', 'a'), ('à', 'a'), ('â', 'a'), ('ã', 'a'), ('ä', 'a'),
    ('é', 'e'), ('è', 'e'), ('ê', 'e'), ('ë', 'e'),
    ('í', 'i'), ('ì', 'i'), ('î', 'i'), ('ï', 'i'),
    ('ó', 'o'), ('ò', 'o'), ('ô', 'o'), ('õ', 'o'), ('ö', 'o'),
    ('ú', 'u'), ('ù', 'u'), ('û', 'u'), ('ü', 'u'),
    ('ç', 'c'), ('ñ', 'n')
  ]

  /** A replacement table of the source's kind: each letter of the Latin-1
      lower-case range is replaced by a plain lower-case ASCII letter. */
  predicate WellFormedTable(table: seq<(char, char)>) {
    forall k :: 0 <= k < |table| ==> 'a' <= table[k].1 <= 'z' && '\U{E0}' <= table[k].0 <= '\U{FF}'
  }

  lemma AccentTableShape()
    ensures WellFormedTable(Accents)
  {
  }

  /** `c` is one of the letters `table` replaces. */
  predicate Replaces(table: seq<(char, char)>, c: char) {
    table != [] && (table[0].0 == c || Replaces(table[1..], c))
  }

  /** One of the accented letters the normaliser removes. */
  predicate IsAccented(c: char) {
    Replaces(Accents, c)
  }

  /** The replacement of the first table entry whose letter is `c`, if any. */
  function Lookup(table: seq<(char, char)>, c: char): char {
    if table == [] then c
    else if table[0].0 == c then table[0].1
    else Lookup(table[1..], c)
  }

  /** One letter with its accent removed. */
  function Plain(c: char): char {
    Lookup(Accents, c)
  }

  /** A looked-up letter is never one the table replaces, and a letter the
      table does not know is left as it is. */
  lemma {:induction false} LookupFacts(table: seq<(char, char)>, c: char)
    requires WellFormedTable(table)
    ensures !Replaces(table, Lookup(table, c))
    ensures !Replaces(table, c) ==> Lookup(table, c) == c
    ensures Replaces(table, c) ==> 'a' <= Lookup(table, c) <= 'z' && c >= '\U{E0}'
  {
    if table != [] {
      assert WellFormedTable(table[1..]) by {
        forall k | 0 <= k < |table[1..]| ensures 'a' <= table[1..][k].1 <= 'z' && '\U{E0}' <= table[1..][k].0 <= '\U{FF}' {
          assert table[1..][k] == table[k + 1];
        }
      }
      LookupFacts(table[1..], c);
      ValuesNotReplaced(table[1..], table[0].1);
    }
  }

  lemma {:induction false} ValuesNotReplaced(table: seq<(char, char)>, c: char)
    requires WellFormedTable(table) && c < '\U{E0}'
    ensures !Replaces(table, c)
  {
    if table != [] {
      assert WellFormedTable(table[1..]) by {
        forall k | 0 <= k < |table[1..]| ensures 'a' <= table[1..][k].1 <= 'z' && '\U{E0}' <= table[1..][k].0 <= '\U{FF}' {
          assert table[1..][k] == table[k + 1];
        }
      }
      ValuesNotReplaced(table[1..], c);
    }
  }

  /** What removing accents does to one letter. */
  lemma PlainFacts(c: char)
    ensures !IsAccented(Plain(c))
    ensures !IsAccented(c) ==> Plain(c) == c
    ensures IsSpace(Plain(c)) == IsSpace(c)
    ensures (Plain(c) == '(') == (c == '(') && (Plain(c) == ')') == (c == ')')
    ensures Lower(c) == c ==> Lower(Plain(c)) == Plain(c)
  {
    AccentTableShape();
    LookupFacts(Accents, c);
  }

  /** Python's str.replace(a, b) for one-character arguments. */
  function ReplaceChar(s: string, a: char, b: char): (r: string)
    ensures |r| == |s| && forall i :: 0 <= i < |s| ==> r[i] == if s[i] == a then b else s[i]
  {
    seq(|s|, i requires 0 <= i < |s| => if s[i] == a then b else s[i])
  }

  /** The letter `c` after the first `k` entries of the table have been
      applied one after another, as the loop over the table does. */
  function ReplacedBy(table: seq<(char, char)>, k: nat, c: char): char
    requires k <= |table|
  {
    if k == 0 then c
    else
      var d := ReplacedBy(table, k - 1, c);
      if d == table[k - 1].0 then table[k - 1].1 else d
  }

  lemma {:induction false} LookupSnoc(table: seq<(char, char)>, e: (char, char), c: char)
    ensures Lookup(table + [e], c) == if Replaces(table, c) then Lookup(table, c) else if e.0 == c then e.1 else c
    ensures Replaces(table + [e], c) == (Replaces(table, c) || e.0 == c)
  {
    if table == [] {
      assert [e][1..] == [];
    } else {
      assert (table + [e])[1..] == table[1..] + [e];
      LookupSnoc(table[1..], e, c);
    }
  }

  /** Replacing the letters one table entry at a time is the same as looking
      each letter up once, since no replacement is itself a replaced letter. */
  lemma {:induction false} ReplacedByLookup(table: seq<(char, char)>, k: nat, c: char)
    requires WellFormedTable(table) && k <= |table|
    ensures ReplacedBy(table, k, c) == Lookup(table[..k], c)
  {
    if k > 0 {
      var front := table[..k - 1];
      ReplacedByLookup(table, k - 1, c);
      assert table[..k] == front + [table[k - 1]];
      LookupSnoc(front, table[k - 1], c);
      assert WellFormedTable(front) by {
        forall j | 0 <= j < |front| ensures 'a' <= front[j].1 <= 'z' && '\U{E0}' <= front[j].0 <= '\U{FF}' {
          assert front[j] == table[j];
        }
      }
      LookupFacts(front, c);
    }
  }

  /** Every letter of `s` with its accent removed. */
  function StripAccents(s: string): (r: string)
    ensures |r| == |s| && forall i :: 0 <= i < |s| ==> r[i] == Plain(s[i])
  {
    seq(|s|, i requires 0 <= i < |s| => Plain(s[i]))
  }

  // ------------------------------------------------------- ( ... ) groups

  /** Python's re.sub(r'\([^)]*\)', '', s): from each '(' that has a ')' after
      it, remove everything up to and including the first such ')'. */
  function RemoveGroups(s: string): (r: string)
    decreases |s|
  {
    if s == [] then []
    else if s[0] == '(' && ')' in s then RemoveGroups(s[IndexOf(s, ')') + 1..])
    else [s[0]] + RemoveGroups(s[1..])
  }

  /** No '(' is followed, anywhere later, by a ')': nothing the group pattern
      could match. */
  predicate NoGroup(s: string) {
    forall i, j :: 0 <= i < j < |s| && s[i] == '(' ==> s[j] != ')'
  }

  lemma {:induction false} RemoveGroupsChars(s: string)
    ensures forall i :: 0 <= i < |RemoveGroups(s)| ==> RemoveGroups(s)[i] in s
    decreases |s|
  {
    if s == [] {
    } else if s[0] == '(' && ')' in s {
      var t := s[IndexOf(s, ')') + 1..];
      RemoveGroupsChars(t);
      forall i | 0 <= i < |RemoveGroups(s)| ensures RemoveGroups(s)[i] in s {
        assert RemoveGroups(s)[i] in t;
      }
    } else {
      RemoveGroupsChars(s[1..]);
      forall i | 0 <= i < |RemoveGroups(s)| ensures RemoveGroups(s)[i] in s {
        if i > 0 {
          assert RemoveGroups(s)[i] == RemoveGroups(s[1..])[i - 1];
        }
      }
    }
  }

  /** After the substitution no group is left. */
  lemma {:induction false} RemoveGroupsLeavesNone(s: string)
    ensures NoGroup(RemoveGroups(s))
    decreases |s|
  {
    if s == [] {
    } else if s[0] == '(' && ')' in s {
      RemoveGroupsLeavesNone(s[IndexOf(s, ')') + 1..]);
    } else {
      var rest := RemoveGroups(s[1..]);
      RemoveGroupsLeavesNone(s[1..]);
      RemoveGroupsChars(s[1..]);
      var r := [s[0]] + rest;
      forall i, j | 0 <= i < j < |r| && r[i] == '(' ensures r[j] != ')' {
        if i == 0 {
          assert ')' !in s[1..];
          assert r[j] == rest[j - 1];
        } else {
          assert r[i] == rest[i - 1] && r[j] == rest[j - 1];
        }
      }
    }
  }

  /** Where there is no group the substitution changes nothing. */
  lemma {:induction false} RemoveGroupsIdentity(s: string)
    requires NoGroup(s)
    ensures RemoveGroups(s) == s
    decreases |s|
  {
    if s != [] {
      NoGroupTail(s);
      RemoveGroupsIdentity(s[1..]);
      HeadTail(s);
    }
  }

  /** The tail of a text with no group has none, and a leading '(' is never
      closed. */
  lemma NoGroupTail(s: string)
    requires s != [] && NoGroup(s)
    ensures NoGroup(s[1..])
    ensures s[0] == '(' ==> ')' !in s
  {
    var t := s[1..];
    forall i, j | 0 <= i < j < |t| && t[i] == '(' ensures t[j] != ')' {
      assert t[i] == s[i + 1] && t[j] == s[j + 1];
    }
    if s[0] == '(' {
      forall j | 0 <= j < |s| ensures s[j] != ')' {
        if j > 0 {
        }
      }
    }
  }

  // ------------------------------------------------------ white-space runs

  /** Python's re.sub(r'\s+', ' ', s). */
  function CollapseSpaces(s: string): (r: string)
    decreases |s|
  {
    if s == [] then []
    else if IsSpace(s[0]) then [' '] + CollapseSpaces(TrimLeft(s[1..]))
    else [s[0]] + CollapseSpaces(s[1..])
  }

  /** White space only as single ' ' characters. */
  predicate SingleSpaced(s: string) {
    && (forall i :: 0 <= i < |s| && IsSpace(s[i]) ==> s[i] == ' ')
    && (forall i :: 0 <= i < |s| - 1 ==> !(IsSpace(s[i]) && IsSpace(s[i + 1])))
  }

  predicate Trimmed(s: string) {
    s != [] ==> !IsSpace(s[0]) && !IsSpace(s[|s| - 1])
  }

  lemma {:induction false} CollapseChars(s: string)
    ensures forall i :: 0 <= i < |CollapseSpaces(s)| ==> CollapseSpaces(s)[i] == ' ' || CollapseSpaces(s)[i] in s
    decreases |s|
  {
    var r := CollapseSpaces(s);
    if s == [] {
    } else if IsSpace(s[0]) {
      var t := TrimLeft(s[1..]);
      CollapseChars(t);
      forall i | 0 <= i < |r| ensures r[i] == ' ' || r[i] in s {
        if i > 0 {
          assert r[i] == CollapseSpaces(t)[i - 1];
          assert r[i] != ' ' ==> r[i] in t;
        }
      }
    } else {
      CollapseChars(s[1..]);
      forall i | 0 <= i < |r| ensures r[i] == ' ' || r[i] in s {
        if i > 0 {
          assert r[i] == CollapseSpaces(s[1..])[i - 1];
        }
      }
    }
  }

  lemma CollapseHead(s: string)
    requires s != [] && !IsSpace(s[0])
    ensures CollapseSpaces(s) != [] && CollapseSpaces(s)[0] == s[0]
  {
  }

  lemma {:induction false} CollapseLast(s: string)
    requires s != [] && !IsSpace(s[|s| - 1])
    ensures CollapseSpaces(s) != [] && !IsSpace(CollapseSpaces(s)[|CollapseSpaces(s)| - 1])
    decreases |s|
  {
    if IsSpace(s[0]) {
      assert s[1..][|s[1..]| - 1] == s[|s| - 1];
      TrimLeftKeepsLast(s[1..]);
      CollapseLast(TrimLeft(s[1..]));
    } else if |s| > 1 {
      CollapseLast(s[1..]);
    }
  }
  /** After collapsing, white space comes only as single ' ' characters. */
  lemma {:induction false} CollapseSingleSpaced(s: string)
    ensures SingleSpaced(CollapseSpaces(s))
    decreases |s|
  {
    var r := CollapseSpaces(s);
    if s == [] {
    } else if IsSpace(s[0]) {
      var t := TrimLeft(s[1..]);
      var rest := CollapseSpaces(t);
      CollapseSingleSpaced(t);
      if t != [] {
        CollapseHead(t);
      }
      assert r == [' '] + rest;
      forall i | 0 <= i < |r| - 1 ensures !(IsSpace(r[i]) && IsSpace(r[i + 1])) {
        if i > 0 {
          assert r[i] == rest[i - 1];
        }
        assert r[i + 1] == rest[i];
      }
      forall i | 0 <= i < |r| && IsSpace(r[i]) ensures r[i] == ' ' {
        if i > 0 {
          assert r[i] == rest[i - 1];
        }
      }
    } else {
      var rest := CollapseSpaces(s[1..]);
      CollapseSingleSpaced(s[1..]);
      assert r == [s[0]] + rest;
      forall i | 0 <= i < |r| - 1 ensures !(IsSpace(r[i]) && IsSpace(r[i + 1])) {
        if i > 0 {
          assert r[i] == rest[i - 1];
        }
        assert r[i + 1] == rest[i];
      }
      forall i | 0 <= i < |r| && IsSpace(r[i]) ensures r[i] == ' ' {
        if i > 0 {
          assert r[i] == rest[i - 1];
        }
      }
    }
  }

  /** Collapsing keeps the absence of groups. */
  lemma {:induction false} CollapseNoGroup(s: string)
    requires NoGroup(s)
    ensures NoGroup(CollapseSpaces(s))
    decreases |s|
  {
    if s != [] {
      var t := if IsSpace(s[0]) then TrimLeft(s[1..]) else s[1..];
      var a := |s| - |t|;
      assert t == s[a..a + |t|];
      SliceNoGroup(s, a, |t|);
      CollapseNoGroup(t);
      if s[0] == '(' {
        NoGroupTail(s);
        NotInSlice(s, ')', a, |t|);
        CollapseNoNewChar(t, ')');
      }
      ConsNoGroup(if IsSpace(s[0]) then ' ' else s[0], CollapseSpaces(t));
    }
  }

  lemma NotInSlice(s: string, c: char, a: nat, n: nat)
    requires a + n <= |s| && c !in s
    ensures c !in s[a..a + n]
  {
    var t := s[a..a + n];
    forall j | 0 <= j < |t| ensures t[j] != c {
      assert t[j] == s[a + j];
    }
  }

  /** Collapsing adds no character but ' '. */
  lemma CollapseNoNewChar(t: string, c: char)
    requires c != ' ' && c !in t
    ensures c !in CollapseSpaces(t)
  {
    CollapseChars(t);
  }

  /** Putting one character before a text with no group keeps it so, unless
      the character is '(' and the text holds a ')'. */
  lemma ConsNoGroup(c: char, rest: string)
    requires NoGroup(rest)
    requires c == '(' ==> ')' !in rest
    ensures NoGroup([c] + rest)
  {
    var r := [c] + rest;
    forall i, j | 0 <= i < j < |r| && r[i] == '(' ensures r[j] != ')' {
      assert r[j] == rest[j - 1];
      if i > 0 {
        assert r[i] == rest[i - 1];
      }
    }
  }

  /** Where white space already comes as single ' ' characters and never at
      the start, collapsing changes nothing. */
  lemma {:induction false} CollapseIdentity(s: string)
    requires SingleSpaced(s)
    requires s != [] ==> !IsSpace(s[0])
    ensures CollapseSpaces(s) == s
    decreases |s|
  {
    if s != [] {
      var t := s[1..];
      SingleSpacedTail(s);
      if t != [] && IsSpace(t[0]) {
        var u := t[1..];
        SingleSpacedTail(t);
        assert TrimLeft(u) == u;
        CollapseIdentity(u);
        assert CollapseSpaces(t) == [' '] + u;
        HeadTail(t);
      } else {
        CollapseIdentity(t);
      }
      HeadTail(s);
    }
  }

  /** The tail of a single-spaced text is single-spaced; a space in front of
      it is ' ' and is not followed by white space. */
  lemma SingleSpacedTail(s: string)
    requires s != [] && SingleSpaced(s)
    ensures SingleSpaced(s[1..])
    ensures IsSpace(s[0]) ==> s[0] == ' ' && (|s| > 1 ==> !IsSpace(s[1]))
  {
    var t := s[1..];
    forall i | 0 <= i < |t| - 1 ensures !(IsSpace(t[i]) && IsSpace(t[i + 1])) {
      assert t[i] == s[i + 1] && t[i + 1] == s[i + 2];
    }
    forall i | 0 <= i < |t| && IsSpace(t[i]) ensures t[i] == ' ' {
      assert t[i] == s[i + 1];
    }
  }

  // ------------------------------------------------------------ normalise

  /** The canonical form `normalizar_nome` computes for a string. */
  function Normalize(s: string): string {
    var lowered := Strip(LowerStr(s));
    var ungrouped := Strip(RemoveGroups(lowered));
    CollapseSpaces(StripAccents(ungrouped))
  }

  /** The shape of a canonical form. */
  predicate IsNormal(r: string) {
    && (forall i :: 0 <= i < |r| ==> !IsAccented(r[i]))
    && Trimmed(r)
    && SingleSpaced(r)
    && NoGroup(r)
    && IsLowered(r)
  }

  lemma SliceNoGroup(s: string, a: nat, n: nat)
    requires a + n <= |s| && NoGroup(s)
    ensures NoGroup(s[a..a + n])
  {
    var t := s[a..a + n];
    forall i, j | 0 <= i < j < |t| && t[i] == '(' ensures t[j] != ')' {
      assert t[i] == s[a + i] && t[j] == s[a + j];
    }
  }

  lemma SliceLowered(s: string, a: nat, n: nat)
    requires a + n <= |s| && IsLowered(s)
    ensures IsLowered(s[a..a + n])
  {
    var t := s[a..a + n];
    forall i | 0 <= i < |t| ensures Lower(t[i]) == t[i] {
      assert t[i] == s[a + i];
    }
  }

  /** Removing groups keeps a text in lower case. */
  lemma RemoveGroupsLowered(s: string)
    requires IsLowered(s)
    ensures IsLowered(RemoveGroups(s))
  {
    var r := RemoveGroups(s);
    RemoveGroupsChars(s);
    forall i | 0 <= i < |r| ensures Lower(r[i]) == r[i] {
      var j :| 0 <= j < |s| && s[j] == r[i];
    }
  }

  /** Stripping keeps a text in lower case and free of groups. */
  lemma StripKeeps(s: string)
    ensures Trimmed(Strip(s))
    ensures NoGroup(s) ==> NoGroup(Strip(s))
    ensures IsLowered(s) ==> IsLowered(Strip(s))
  {
    var a, t := StripStart(s), Strip(s);
    if NoGroup(s) {
      SliceNoGroup(s, a, |t|);
    }
    if IsLowered(s) {
      SliceLowered(s, a, |t|);
    }
  }

  /** The first two steps: lower-cased, stripped, groups removed, stripped. */
  lemma UngroupedShape(s: string)
    ensures var u := Strip(RemoveGroups(Strip(LowerStr(s))));
      Trimmed(u) && NoGroup(u) && IsLowered(u)
  {
    LowerStrIsLowered(s);
    StripKeeps(LowerStr(s));
    var lowered := Strip(LowerStr(s));
    RemoveGroupsLeavesNone(lowered);
    RemoveGroupsLowered(lowered);
    StripKeeps(RemoveGroups(lowered));
  }

  /** Removing accents keeps the shape and leaves no accented letter. */
  lemma StripAccentsShape(s: string)
    requires Trimmed(s) && NoGroup(s) && IsLowered(s)
    ensures var r := StripAccents(s);
      Trimmed(r) && NoGroup(r) && IsLowered(r) && forall i :: 0 <= i < |r| ==> !IsAccented(r[i])
  {
    var r := StripAccents(s);
    forall i | 0 <= i < |s|
      ensures !IsAccented(r[i]) && IsSpace(r[i]) == IsSpace(s[i]) && Lower(r[i]) == r[i]
      ensures (r[i] == '(') == (s[i] == '(') && (r[i] == ')') == (s[i] == ')')
    {
      PlainFacts(s[i]);
    }
  }

  /** Collapsing white space keeps the shape and makes it single-spaced. */
  lemma CollapseShape(s: string)
    requires Trimmed(s) && NoGroup(s) && IsLowered(s) && forall i :: 0 <= i < |s| ==> !IsAccented(s[i])
    ensures IsNormal(CollapseSpaces(s))
  {
    CollapseSingleSpaced(s);
    CollapseNoGroup(s);
    CollapseTrimmed(s);
    CollapseLetters(s);
  }

  lemma CollapseTrimmed(s: string)
    requires Trimmed(s)
    ensures Trimmed(CollapseSpaces(s))
  {
    if s != [] {
      CollapseHead(s);
      CollapseLast(s);
    }
  }

  /** Collapsing brings in no accented and no upper-case letter. */
  lemma CollapseLetters(s: string)
    requires IsLowered(s) && forall i :: 0 <= i < |s| ==> !IsAccented(s[i])
    ensures var r := CollapseSpaces(s);
      IsLowered(r) && forall i :: 0 <= i < |r| ==> !IsAccented(r[i])
  {
    var r := CollapseSpaces(s);
    CollapseChars(s);
    SpaceIsPlain();
    forall i | 0 <= i < |r| ensures !IsAccented(r[i]) && Lower(r[i]) == r[i] {
      if r[i] != ' ' {
        var j :| 0 <= j < |s| && s[j] == r[i];
      }
    }
  }

  lemma SpaceIsPlain()
    ensures !IsAccented(' ') && Lower(' ') == ' '
  {
    AccentTableShape();
    ValuesNotReplaced(Accents, ' ');
  }

  /** Every result of `normalizar_nome` has no accented letter of the table,
      no white space at either end, white space only as single ' '
      characters, no `(...)` group, and only lower-case letters. */
  lemma NormalizeShape(s: string)
    ensures IsNormal(Normalize(s))
  {
    var u := Strip(RemoveGroups(Strip(LowerStr(s))));
    UngroupedShape(s);
    StripAccentsShape(u);
    CollapseShape(StripAccents(u));
  }

  /** Normalising a canonical form gives it back. */
  lemma NormalIsFixed(r: string)
    requires IsNormal(r)
    ensures Normalize(r) == r
  {
    assert LowerStr(r) == r;
    StripNoEdgeSpace(r);
    RemoveGroupsIdentity(r);
    forall i | 0 <= i < |r| ensures Plain(r[i]) == r[i] {
      PlainFacts(r[i]);
    }
    assert StripAccents(r) == r;
    CollapseIdentity(r);
  }

  /** `normalizar_nome` is idempotent. */
  lemma NormalizeIdempotent(s: string)
    ensures Normalize(Normalize(s)) == Normalize(s)
  {
    NormalizeShape(s);
    NormalIsFixed(Normalize(s));
  }

  /** One more pass of the loop over the table. */
  lemma ReplaceStep(table: seq<(char, char)>, k: nat, u: string, n: string)
    requires k < |table| && |n| == |u|
    requires forall i :: 0 <= i < |n| ==> n[i] == ReplacedBy(table, k, u[i])
    ensures var m := ReplaceChar(n, table[k].0, table[k].1);
      |m| == |u| && forall i :: 0 <= i < |m| ==> m[i] == ReplacedBy(table, k + 1, u[i])
  {
  }

  /** After the loop over the whole table every letter has lost its accent. */
  lemma AccentsReplaced(u: string, n: string)
    requires |n| == |u|
    requires forall i :: 0 <= i < |n| ==> n[i] == ReplacedBy(Accents, |Accents|, u[i])
    ensures n == StripAccents(u)
  {
    AccentTableShape();
    forall i | 0 <= i < |n| ensures n[i] == Plain(u[i]) {
      ReplacedByLookup(Accents, |Accents|, u[i]);
      assert Accents[..|Accents|] == Accents;
    }
  }

  /** The loop of `normalizar_nome` that replaces the accented letters, one
      table entry at a time. */
  method RemoveAccents(s: string) returns (n: string)
    ensures n == StripAccents(s)
  {
    n := s;
    var table := Accents;
    var k := 0;
    while k < |table|
      invariant 0 <= k <= |table|
      invariant |n| == |s|
      invariant forall i :: 0 <= i < |n| ==> n[i] == ReplacedBy(table, k, s[i])
    {
      ReplaceStep(table, k, s, n);
      n := ReplaceChar(n, table[k].0, table[k].1);
      k := k + 1;
    }
    AccentsReplaced(s, n);
  }

  /** `normalizar_nome` itself: None gives "", a string its canonical form. */
  method NormalizeName(name: Option<string>) returns (r: string)
    ensures name.None? ==> r == ""
    ensures name.Some? ==> r == Normalize(name.value)
  {
    if name.None? {
      return "";
    }
    var n := Strip(LowerStr(name.value));
    n := Strip(RemoveGroups(n));
    n := RemoveAccents(n);
    r := CollapseSpaces(n);
  }
}
