/**
 * Resolving the requested test-bench name (`main`): a declared name is run;
 * otherwise the declared names within edit distance `MaxEditDistance` of it,
 * together with those containing it, are offered, most similar first.
 */
module Suggestion {
  import opened Levenshtein
  import opened Similarity
  import opened Extraction

  const MaxEditDistance: nat := 10

  /** `sub` occurs in `s` at index `k`. */
  predicate OccursAt(s: string, sub: string, k: int)
  {
    0 <= k && k + |sub| <= |s| && s[k..k + |sub|] == sub
  }

  predicate Contains(s: string, sub: string)
  {
    exists k :: 0 <= k <= |s| && OccursAt(s, sub, k)
  }

  function FindFrom(s: string, sub: string, i: nat): (r: int)
    requires i <= |s|
    ensures r == -1 || (i <= r && OccursAt(s, sub, r))
    ensures r == -1 ==> forall k :: i <= k ==> !OccursAt(s, sub, k)
    ensures r != -1 ==> forall k :: i <= k < r ==> !OccursAt(s, sub, k)
    decreases |s| - i
  {
    if i + |sub| > |s| then -1
    else if s[i..i + |sub|] == sub then i
    else FindFrom(s, sub, i + 1)
  }

  /** Python's `s.find(sub)`: the first index at which `sub` occurs in `s`, or -1 when it does not. */
  function Find(s: string, sub: string): (r: int)
    ensures r == -1 <==> !Contains(s, sub)
    ensures r != -1 ==> OccursAt(s, sub, r) && forall k :: 0 <= k < r ==> !OccursAt(s, sub, k)
  {
    FindFrom(s, sub, 0)
  }

  /** The two selection rules: close in edit distance, or containing the target. */
  predicate IsSuggestion(name: string, target: string)
  {
    EditDist(name, target) <= MaxEditDistance || Contains(name, target)
  }

  /** Outcome of resolving a name: it is declared, or the ranked suggestions for it. */
  datatype Resolution = Found | NotFound(suggestions: seq<string>)

  predicate NoDuplicates(l: seq<string>)
  {
    forall i, j :: 0 <= i < j < |l| ==> l[i] != l[j]
  }

  /** Every score is defined and the list is non-decreasing by score (most similar first). */
  predicate Ranked(l: seq<string>, target: string)
  {
    && (forall i :: 0 <= i < |l| ==> Scorable(l[i], target))
    && (forall i, j :: 0 <= i < j < |l| ==>
          ScoreLe(StringSimilarity(l[i], target), StringSimilarity(l[j], target)))
  }

  /** A name paired with its sort key, as `list.sort(key=...)` computes it once per element. */
  datatype Scored = Scored(name: string, score: Ratio)

  predicate SortedByScore(l: seq<Scored>)
  {
    forall i, j :: 0 <= i < j < |l| ==> ScoreLe(l[i].score, l[j].score)
  }

  predicate PositiveScores(l: seq<Scored>)
  {
    forall i :: 0 <= i < |l| ==> l[i].score.den > 0
  }

  predicate DistinctNames(l: seq<Scored>)
  {
    forall i, j :: 0 <= i < j < |l| ==> l[i].name != l[j].name
  }

  lemma FrontStaysSorted(l: seq<Scored>, x: Scored)
    requires SortedByScore(l) && PositiveScores(l) && |l| > 0
    requires ScoreLe(x.score, l[0].score)
    ensures SortedByScore([x] + l)
  {
    forall j | 0 <= j < |l|
      ensures ScoreLe(x.score, l[j].score)
    {
      if j > 0 {
        ScoreLeTransitive(x.score, l[0].score, l[j].score);
      }
    }
  }

  lemma HeadStaysSorted(l: seq<Scored>, x: Scored, rest: seq<Scored>)
    requires SortedByScore(l) && |l| > 0 && ScoreLe(l[0].score, x.score)
    requires forall y :: y in rest <==> y in l[1..] || y == x
    requires SortedByScore(rest)
    ensures SortedByScore([l[0]] + rest)
  {
    forall i | 0 <= i < |rest|
      ensures ScoreLe(l[0].score, rest[i].score)
    {
      if rest[i] != x {
        assert rest[i] in l[1..];
        var k :| 0 <= k < |l| - 1 && l[1..][k] == rest[i];
        assert l[k + 1] == rest[i];
      }
    }
  }

  lemma HeadStaysDistinct(l: seq<Scored>, x: Scored, rest: seq<Scored>)
    requires DistinctNames(l) && |l| > 0 && l[0].name != x.name
    requires forall y :: y in rest <==> y in l[1..] || y == x
    requires DistinctNames(rest)
    ensures DistinctNames([l[0]] + rest)
  {
    forall i | 0 <= i < |rest|
      ensures l[0].name != rest[i].name
    {
      if rest[i] != x {
        assert rest[i] in l[1..];
        var k :| 0 <= k < |l| - 1 && l[1..][k] == rest[i];
        assert l[k + 1] == rest[i];
      }
    }
  }

  /** Insertion into a list sorted by score: the result is sorted and holds exactly one more element. */
  function InsertByScore(l: seq<Scored>, x: Scored): (r: seq<Scored>)
    requires SortedByScore(l) && PositiveScores(l) && x.score.den > 0
    ensures |r| == |l| + 1
    ensures forall y :: y in r <==> y in l || y == x
    ensures SortedByScore(r) && PositiveScores(r)
    ensures DistinctNames(l) && (forall i :: 0 <= i < |l| ==> l[i].name != x.name) ==> DistinctNames(r)
    decreases |l|
  {
    if |l| == 0 then [x]
    else if ScoreLe(x.score, l[0].score) then
      FrontStaysSorted(l, x);
      [x] + l
    else
      var rest := InsertByScore(l[1..], x);
      HeadStaysSorted(l, x, rest);
      if DistinctNames(l) && (forall i :: 0 <= i < |l| ==> l[i].name != x.name) then
        HeadStaysDistinct(l, x, rest);
        [l[0]] + rest
      else
        [l[0]] + rest
  }

  function Names(l: seq<Scored>): (names: seq<string>)
    ensures |names| == |l| && forall i :: 0 <= i < |l| ==> names[i] == l[i].name
  {
    seq(|l|, i requires 0 <= i < |l| => l[i].name)
  }

  /**
   * Turning the suggestion set into a list and sorting it by score: each
   * element is scored with the row-by-row distance and inserted in order.
   */
  method RankSuggestions(candidates: set<string>, target: string) returns (ranked: seq<string>)
    requires forall n :: n in candidates ==> Scorable(n, target)
    ensures forall n :: n in ranked <==> n in candidates
    ensures NoDuplicates(ranked)
    ensures Ranked(ranked, target)
  {
    var scored: seq<Scored> := [];
    var rest := candidates;
    while rest != {}
      invariant rest <= candidates
      invariant SortedByScore(scored) && PositiveScores(scored) && DistinctNames(scored)
      invariant forall s :: s in scored ==> s.name in candidates && s.name !in rest
      invariant forall s :: s in scored ==> s.score == StringSimilarity(s.name, target)
      invariant forall n :: n in candidates && n !in rest ==> exists s :: s in scored && s.name == n
      decreases rest
    {
      var name :| name in rest;
      var score := CalcStringSimilarity(name, target);
      scored := InsertByScore(scored, Scored(name, score));
      rest := rest - {name};
    }
    ranked := Names(scored);
    forall n | n in candidates
      ensures n in ranked
    {
      var s :| s in scored && s.name == n;
      var i :| 0 <= i < |scored| && scored[i] == s;
      assert ranked[i] == n;
    }
  }

  /**
   * The suggestion logic of `main`: a declared name resolves; otherwise the
   * declared names that are close in edit distance or contain the target are
   * collected (two passes, as the two `update` calls) and ranked.
   */
  method Resolve(declared: set<string>, target: string) returns (result: Resolution)
    ensures result.Found? <==> target in declared
    ensures result.NotFound? ==>
      forall n :: n in result.suggestions <==> n in declared && IsSuggestion(n, target)
    ensures result.NotFound? ==> target !in result.suggestions && NoDuplicates(result.suggestions)
    ensures result.NotFound? ==> Ranked(result.suggestions, target)
  {
    if target in declared {
      return Found;
    }
    var suggested: set<string> := {};
    var rest := declared;
    while rest != {}
      invariant rest <= declared
      invariant forall n :: n in suggested <==> n in declared && n !in rest && EditDist(n, target) <= MaxEditDistance
      decreases rest
    {
      var name :| name in rest;
      var d := CalcLevenshteinDistance(name, target);
      if d <= MaxEditDistance {
        suggested := suggested + {name};
      }
      rest := rest - {name};
    }
    rest := declared;
    while rest != {}
      invariant rest <= declared
      invariant forall n :: n in suggested <==>
        n in declared && (EditDist(n, target) <= MaxEditDistance || (n !in rest && Contains(n, target)))
      decreases rest
    {
      var name :| name in rest;
      if Find(name, target) != -1 {
        suggested := suggested + {name};
      }
      rest := rest - {name};
    }
    var ranked := RankSuggestions(suggested, target);
    result := NotFound(ranked);
  }

  /**
   * `main` without its input and output: the names declared across the
   * test-bench files, then resolution of the requested name against them.
   */
  method RunTest(files: seq<string>, target: string) returns (result: Resolution)
    ensures result.Found? <==> exists i :: 0 <= i < |files| && target in Declarations(files[i])
    ensures result.NotFound? ==> forall n :: n in result.suggestions <==>
      IsSuggestion(n, target) && exists i :: 0 <= i < |files| && n in Declarations(files[i])
    ensures result.NotFound? ==> forall n :: n in result.suggestions ==> IsIdentifier(n)
    ensures result.NotFound? ==> NoDuplicates(result.suggestions) && Ranked(result.suggestions, target)
  {
    var names := ExtractFromDir(files);
    result := Resolve(names, target);
  }
}
