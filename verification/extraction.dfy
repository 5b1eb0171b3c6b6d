/**
 * Collecting the declared test-bench names from source texts.
 *
 * `extract_from_file` runs the pattern `module\s+(\w+)(?:\s*\([^;]*\))?\s*;`
 * over a file's text with `finditer` and keeps every captured name;
 * `extract_from_dir` takes the union over the test-bench files. A match is
 * modelled exactly, with the backtracking worked out: the name is the whole
 * run of word characters after the whitespace that follows `module`, and the
 * match always ends at the first `;` after the name.
 */
module Extraction {
  import opened Wrappers

  const Keyword: string := "module"

  /** `\w`, restricted to ASCII: letters, digits and underscore. */
  predicate IsWordChar(c: char)
  {
    ('a' <= c <= 'z') || ('A' <= c <= 'Z') || ('0' <= c <= '9') || c == '_'
  }

  /** `\s`, restricted to ASCII whitespace (including the separators 0x1C-0x1F). */
  predicate IsSpace(c: char)
  {
    c == ' ' || ('\t' <= c <= '\r') || ('\U{1C}' <= c <= '\U{1F}')
  }

  /** A name the pattern can capture: one or more word characters. */
  predicate IsIdentifier(name: string)
  {
    |name| > 0 && forall i :: 0 <= i < |name| ==> IsWordChar(name[i])
  }

  /** End of the longest run of whitespace starting at `i`. */
  function SpaceEnd(text: string, i: nat): (k: nat)
    requires i <= |text|
    ensures i <= k <= |text|
    ensures forall m :: i <= m < k ==> IsSpace(text[m])
    ensures k < |text| ==> !IsSpace(text[k])
    decreases |text| - i
  {
    if i < |text| && IsSpace(text[i]) then SpaceEnd(text, i + 1) else i
  }

  /** End of the longest run of word characters starting at `i`. */
  function WordEnd(text: string, i: nat): (k: nat)
    requires i <= |text|
    ensures i <= k <= |text|
    ensures forall m :: i <= m < k ==> IsWordChar(text[m])
    ensures k < |text| ==> !IsWordChar(text[k])
    decreases |text| - i
  {
    if i < |text| && IsWordChar(text[i]) then WordEnd(text, i + 1) else i
  }

  /** Position of the first `;` at or after `i`, or `|text|` when there is none. */
  function SemicolonFrom(text: string, i: nat): (k: nat)
    requires i <= |text|
    ensures i <= k <= |text|
    ensures k < |text| ==> text[k] == ';'
    ensures forall m :: i <= m < k ==> text[m] != ';'
    decreases |text| - i
  {
    if i < |text| && text[i] != ';' then SemicolonFrom(text, i + 1) else i
  }

  /** Start of the longest run of whitespace that ends at `k` and does not reach below `lo`. */
  function SpaceStartBefore(text: string, lo: nat, k: nat): (r: nat)
    requires lo <= k <= |text|
    ensures lo <= r <= k
    ensures forall m :: r <= m < k ==> IsSpace(text[m])
    ensures r > lo ==> !IsSpace(text[r - 1])
    decreases k - lo
  {
    if k > lo && IsSpace(text[k - 1]) then SpaceStartBefore(text, lo, k - 1) else k
  }

  /** No `;` in `text[k..q]`. */
  predicate NoSemicolon(text: string, k: nat, q: nat)
    requires k <= q <= |text|
  {
    forall m :: k <= m < q ==> text[m] != ';'
  }

  /** A match of the declaration pattern: the captured name and the position just after the `;`. */
  datatype Match = Match(name: string, end: nat)

  /**
   * The rest of a match once the name `text[j..k]` is read: `\s*;` directly,
   * or the optional parameter group first. The group is tried first: after
   * `(`, `[^;]*` runs up to the first `;` and backtracks to a `)` that only
   * whitespace separates from that `;`.
   */
  function MatchAfterName(text: string, j: nat, k: nat): (m: Option<Match>)
    requires j <= k <= |text|
    ensures m.Some? ==> m.value.name == text[j..k]
    ensures m.Some? ==> k < m.value.end <= |text| && text[m.value.end - 1] == ';'
    ensures m.Some? ==> NoSemicolon(text, k, m.value.end - 1)
  {
    var l := SpaceEnd(text, k);
    if l < |text| && text[l] == ';' then
      Some(Match(text[j..k], l + 1))
    else if l < |text| && text[l] == '(' then
      var s := SemicolonFrom(text, l + 1);
      if s < |text| then
        var r := SpaceStartBefore(text, l + 1, s);
        if r > l + 1 && text[r - 1] == ')' then Some(Match(text[j..k], s + 1)) else None
      else None
    else None
  }

  /** The match of the declaration pattern that starts exactly at `p`, if any. */
  function MatchAt(text: string, p: nat): (m: Option<Match>)
    requires p <= |text|
    ensures m.Some? ==> p + |Keyword| <= |text| && text[p..p + |Keyword|] == Keyword
    ensures m.Some? ==> IsIdentifier(m.value.name)
    ensures m.Some? ==> p < m.value.end <= |text| && text[m.value.end - 1] == ';'
    ensures m.Some? ==> NoSemicolon(text, p, m.value.end - 1)
  {
    if p + |Keyword| > |text| || text[p..p + |Keyword|] != Keyword then None
    else
      var j := SpaceEnd(text, p + |Keyword|);
      if j == p + |Keyword| then None
      else
        var k := WordEnd(text, j);
        if k == j then None
        else
          assert NoSemicolon(text, p, k) by {
            assert forall m :: p <= m < p + |Keyword| ==> text[m] == Keyword[m - p];
          }
          MatchAfterName(text, j, k)
  }

  /**
   * `finditer`'s left-to-right, non-overlapping scan from position `p`: where
   * a match starts, its name is kept and the scan resumes after it; elsewhere
   * the scan moves on by one character.
   */
  function ScanFrom(text: string, p: nat): (names: set<string>)
    requires p <= |text|
    ensures forall n :: n in names ==> IsIdentifier(n)
    decreases |text| - p
  {
    if p == |text| then {}
    else
      match MatchAt(text, p)
      case Some(m) => {m.name} + ScanFrom(text, m.end)
      case None => ScanFrom(text, p + 1)
  }

  /** The names one file declares. */
  function Declarations(text: string): set<string>
  {
    ScanFrom(text, 0)
  }

  /** Where a match starts, the scan keeps its name and resumes after it. */
  lemma ScanOverMatch(text: string, p: nat, m: Match)
    requires p < |text| && MatchAt(text, p) == Some(m)
    ensures ScanFrom(text, p) == {m.name} + ScanFrom(text, m.end)
  {
  }

  /** Where no match starts, the scan moves on by one character. */
  lemma ScanOverNoMatch(text: string, p: nat)
    requires p < |text| && MatchAt(text, p) == None
    ensures ScanFrom(text, p) == ScanFrom(text, p + 1)
  {
  }

  /** Every name the scan keeps is captured by a match somewhere at or after `p`. */
  lemma {:induction false} ScanSound(text: string, p: nat, n: string)
    requires p <= |text| && n in ScanFrom(text, p)
    ensures exists q :: p <= q < |text| && MatchAt(text, q).Some? && MatchAt(text, q).value.name == n
    decreases |text| - p
  {
    if p == |text| {
    } else if MatchAt(text, p).Some? {
      var m := MatchAt(text, p).value;
      ScanOverMatch(text, p, m);
      if n != m.name {
        ScanSound(text, m.end, n);
      }
    } else {
      ScanOverNoMatch(text, p);
      ScanSound(text, p + 1, n);
    }
  }

  /**
   * A declaration is found unless an earlier match overlaps it: the match at
   * `q` is kept when no other match starts after the last `;` before `q`.
   * (A match never spans a `;` but its last character, so the scan cannot jump
   * over `q` without passing a `;` first.)
   */
  lemma {:induction false} ScanFindsFirstAfterSemicolon(text: string, p: nat, q: nat)
    requires p <= q < |text|
    requires MatchAt(text, q).Some?
    requires forall k :: p <= k < q && NoSemicolon(text, k, q) ==> MatchAt(text, k).None?
    ensures MatchAt(text, q).value.name in ScanFrom(text, p)
    decreases q - p
  {
    if p == q {
      ScanOverMatch(text, q, MatchAt(text, q).value);
    } else if MatchAt(text, p).None? {
      ScanOverNoMatch(text, p);
      ScanFindsFirstAfterSemicolon(text, p + 1, q);
    } else {
      var m := MatchAt(text, p).value;
      ScanOverMatch(text, p, m);
      assert !NoSemicolon(text, p, q);
      var semi :| p <= semi < q && text[semi] == ';';
      assert m.end <= q;
      ScanFindsFirstAfterSemicolon(text, m.end, q);
    }
  }

  lemma {:induction false} SpaceEndOfRun(text: string, i: nat, k: nat)
    requires i <= k <= |text|
    requires forall m :: i <= m < k ==> IsSpace(text[m])
    requires k < |text| ==> !IsSpace(text[k])
    ensures SpaceEnd(text, i) == k
    decreases k - i
  {
    if i < k {
      SpaceEndOfRun(text, i + 1, k);
    }
  }

  lemma {:induction false} WordEndOfRun(text: string, i: nat, k: nat)
    requires i <= k <= |text|
    requires forall m :: i <= m < k ==> IsWordChar(text[m])
    requires k < |text| ==> !IsWordChar(text[k])
    ensures WordEnd(text, i) == k
    decreases k - i
  {
    if i < k {
      WordEndOfRun(text, i + 1, k);
    }
  }

  lemma {:induction false} SemicolonFromFirst(text: string, i: nat, k: nat)
    requires i <= k < |text| && text[k] == ';'
    requires forall m :: i <= m < k ==> text[m] != ';'
    ensures SemicolonFrom(text, i) == k
    decreases k - i
  {
    if i < k {
      SemicolonFromFirst(text, i + 1, k);
    }
  }

  lemma {:induction false} SpaceStartOfRun(text: string, lo: nat, r: nat, k: nat)
    requires lo <= r <= k <= |text|
    requires forall m :: r <= m < k ==> IsSpace(text[m])
    requires r > lo ==> !IsSpace(text[r - 1])
    ensures SpaceStartBefore(text, lo, k) == r
    decreases k - r
  {
    if r < k {
      SpaceStartOfRun(text, lo, r, k - 1);
    }
  }

  /** Once `module`, whitespace and a name are read, the match is decided by what follows the name. */
  lemma MatchAtName(text: string, p: nat, j: nat, k: nat)
    requires p + |Keyword| < j < k <= |text|
    requires text[p..p + |Keyword|] == Keyword
    requires SpaceEnd(text, p + |Keyword|) == j && WordEnd(text, j) == k
    ensures MatchAt(text, p) == MatchAfterName(text, j, k)
  {
  }

  /** No match starts where `module` does not. */
  lemma NoMatchWithoutKeyword(text: string, p: nat)
    requires p < |text| && text[p] != Keyword[0]
    ensures MatchAt(text, p) == None
  {
    if p + |Keyword| <= |text| {
      assert text[p..p + |Keyword|][0] == text[p];
    }
  }

  /** The name followed, after optional whitespace, by `;`. */
  lemma MatchAfterPlain(text: string, j: nat, k: nat, l: nat)
    requires j <= k <= l < |text|
    requires SpaceEnd(text, k) == l && text[l] == ';'
    ensures MatchAfterName(text, j, k) == Some(Match(text[j..k], l + 1))
  {
  }

  /**
   * The name followed by a parameter group: `(` after optional whitespace, and
   * a `)` at `r` that only whitespace separates from the next `;`.
   */
  lemma MatchAfterGroup(text: string, j: nat, k: nat, l: nat, r: nat, s: nat)
    requires j <= k <= l < r < s < |text|
    requires SpaceEnd(text, k) == l && text[l] == '('
    requires SemicolonFrom(text, l + 1) == s && text[r] == ')'
    requires forall m :: r < m < s ==> IsSpace(text[m])
    ensures MatchAfterName(text, j, k) == Some(Match(text[j..k], s + 1))
  {
    SpaceStartOfRun(text, l + 1, r + 1, s);
  }

  /** `module NAME` laid out in `text` from position `p`, with one space before the name. */
  predicate HeaderAt(text: string, p: nat, name: string)
  {
    var j := p + |Keyword| + 1;
    j + |name| < |text| && text[p..p + |Keyword|] == Keyword && text[j - 1] == ' ' && text[j..j + |name|] == name
  }

  /** `(PARAMS);` laid out in `text` from position `k`. */
  predicate GroupAt(text: string, k: nat, params: string)
  {
    k + |params| + 2 < |text| && text[k] == '(' && text[k + 1..k + 1 + |params|] == params
    && text[k + 1 + |params|] == ')' && text[k + 2 + |params|] == ';'
  }

  /** `module NAME;` laid out in `text` from position `p`. */
  predicate PlainDeclarationAt(text: string, p: nat, name: string)
  {
    HeaderAt(text, p, name) && text[p + |Keyword| + 1 + |name|] == ';'
  }

  /** `module NAME(PARAMS);` laid out in `text` from position `p`. */
  predicate ParameterisedDeclarationAt(text: string, p: nat, name: string, params: string)
  {
    HeaderAt(text, p, name) && GroupAt(text, p + |Keyword| + 1 + |name|, params)
  }

  /** `module NAME` followed by a space: the name is what `\s+(\w+)` reads. */
  lemma NameAfterKeyword(text: string, p: nat, name: string)
    requires IsIdentifier(name) && HeaderAt(text, p, name)
    requires !IsWordChar(text[p + |Keyword| + 1 + |name|])
    ensures MatchAt(text, p) == MatchAfterName(text, p + |Keyword| + 1, p + |Keyword| + 1 + |name|)
  {
    var j, k := p + |Keyword| + 1, p + |Keyword| + 1 + |name|;
    assert SpaceEnd(text, j - 1) == j by {
      SpaceEndOfRun(text, j - 1, j);
    }
    assert WordEnd(text, j) == k by {
      assert forall m :: j <= m < k ==> text[m] == name[m - j];
      WordEndOfRun(text, j, k);
    }
    MatchAtName(text, p, j, k);
  }

  /** A parameter group without `;` after the name: the match takes it and ends at the `;` after `)`. */
  lemma GroupAfterName(text: string, j: nat, k: nat, params: string)
    requires j <= k && GroupAt(text, k, params)
    requires forall i :: 0 <= i < |params| ==> params[i] != ';'
    ensures MatchAfterName(text, j, k) == Some(Match(text[j..k], k + |params| + 3))
  {
    var s := k + |params| + 2;
    assert forall m :: k + 1 <= m < s - 1 ==> text[m] == params[m - k - 1];
    SpaceEndOfRun(text, k, k);
    SemicolonFromFirst(text, k + 1, s);
    MatchAfterGroup(text, j, k, k, s - 1, s);
  }

  /** A plain declaration `module NAME;` is matched where it starts, and the match ends after its `;`. */
  lemma PlainDeclarationMatches(text: string, p: nat, name: string, end: nat)
    requires IsIdentifier(name) && PlainDeclarationAt(text, p, name)
    requires end == p + |Keyword| + |name| + 2
    ensures MatchAt(text, p) == Some(Match(name, end))
  {
    var j, k := p + |Keyword| + 1, p + |Keyword| + 1 + |name|;
    NameAfterKeyword(text, p, name);
    SpaceEndOfRun(text, k, k);
    MatchAfterPlain(text, j, k, k);
  }

  /**
   * A declaration with a parameter list, `module NAME(PARAMS);`, is matched
   * when PARAMS has no `;`, and the match ends after its `;`.
   */
  lemma ParameterisedDeclarationMatches(text: string, p: nat, name: string, params: string, end: nat)
    requires IsIdentifier(name) && ParameterisedDeclarationAt(text, p, name, params)
    requires forall i :: 0 <= i < |params| ==> params[i] != ';'
    requires end == p + |Keyword| + |name| + |params| + 4
    ensures MatchAt(text, p) == Some(Match(name, end))
  {
    var j, k := p + |Keyword| + 1, p + |Keyword| + 1 + |name|;
    NameAfterKeyword(text, p, name);
    GroupAfterName(text, j, k, params);
  }

  /** A file of two lines: `module A;`, then `module B(PARAMS);`. */
  function TwoDeclarations(a: string, b: string, params: string): string
  {
    Keyword + " " + a + ";" + "\n" + (Keyword + " " + b + "(" + params + ");")
  }

  /** Where the two declarations and the line break lie in that file, `e` being the line break. */
  lemma TwoDeclarationsLayout(a: string, b: string, params: string, e: nat)
    requires e == |Keyword| + |a| + 2
    ensures var t := TwoDeclarations(a, b, params);
            && |t| == e + 1 + |Keyword| + |b| + |params| + 4
            && PlainDeclarationAt(t, 0, a) && t[e] == '\n' && ParameterisedDeclarationAt(t, e + 1, b, params)
  {
    var first := Keyword + " " + a + ";";
    var second := Keyword + " " + b + "(" + params + ");";
    var t := TwoDeclarations(a, b, params);
    assert t == first + "\n" + second;
    assert t[..|first|] == first;
    assert t[|first| + 1..] == second;
  }

  /** Any text laid out as `module A;`, a line break at `e`, then `module B(PARAMS);` declares exactly A and B. */
  lemma TwoDeclarationsScan(t: string, a: string, b: string, params: string, e: nat)
    requires IsIdentifier(a) && IsIdentifier(b)
    requires forall i :: 0 <= i < |params| ==> params[i] != ';'
    requires e == |Keyword| + |a| + 2 && |t| == e + 1 + |Keyword| + |b| + |params| + 4
    requires PlainDeclarationAt(t, 0, a) && t[e] == '\n' && ParameterisedDeclarationAt(t, e + 1, b, params)
    ensures Declarations(t) == {a, b}
  {
    PlainDeclarationMatches(t, 0, a, e);
    NoMatchWithoutKeyword(t, e);
    ParameterisedDeclarationMatches(t, e + 1, b, params, |t|);
    ScanThreeSteps(t, a, b, e, |t|);
  }

  /** A match ending at `e`, no match at `e`, and a match from `e + 1` to the end `f`: the scan keeps both names. */
  lemma ScanThreeSteps(t: string, a: string, b: string, e: nat, f: nat)
    requires 0 < e && e + 1 < f == |t|
    requires MatchAt(t, 0) == Some(Match(a, e)) && MatchAt(t, e) == None
    requires MatchAt(t, e + 1) == Some(Match(b, f))
    ensures Declarations(t) == {a, b}
  {
    ScanOverMatch(t, 0, Match(a, e));
    ScanOverNoMatch(t, e);
    ScanOverMatch(t, e + 1, Match(b, f));
    assert ScanFrom(t, f) == {};
  }

  /**
   * A file holding `module A;` and, on the next line, `module B(PARAMS);`
   * declares exactly A and B.
   */
  lemma TwoDeclarationsFound(a: string, b: string, params: string)
    requires IsIdentifier(a) && IsIdentifier(b)
    requires forall i :: 0 <= i < |params| ==> params[i] != ';'
    ensures Declarations(TwoDeclarations(a, b, params)) == {a, b}
  {
    var e := |Keyword| + |a| + 2;
    TwoDeclarationsLayout(a, b, params, e);
    TwoDeclarationsScan(TwoDeclarations(a, b, params), a, b, params, e);
  }

  /** `extract_from_file` on a file's text: walk the matches, adding each name to a set. */
  method ExtractFromFile(text: string) returns (names: set<string>)
    ensures names == Declarations(text)
    ensures forall n :: n in names ==> IsIdentifier(n)
  {
    names := {};
    var p := 0;
    while p < |text|
      invariant p <= |text|
      invariant names + ScanFrom(text, p) == Declarations(text)
    {
      var next := MatchAt(text, p);
      if next.Some? {
        ScanOverMatch(text, p, next.value);
        names := names + {next.value.name};
        p := next.value.end;
      } else {
        ScanOverNoMatch(text, p);
        p := p + 1;
      }
    }
  }

  /** `extract_from_dir` over the texts of the test-bench files: the union of their declarations. */
  method ExtractFromDir(files: seq<string>) returns (names: set<string>)
    ensures forall n :: n in names <==> exists i :: 0 <= i < |files| && n in Declarations(files[i])
    ensures forall n :: n in names ==> IsIdentifier(n)
  {
    names := {};
    for i := 0 to |files|
      invariant forall n :: n in names <==> exists k :: 0 <= k < i && n in Declarations(files[k])
      invariant forall n :: n in names ==> IsIdentifier(n)
    {
      var fileNames := ExtractFromFile(files[i]);
      names := names + fileNames;
    }
  }
}
