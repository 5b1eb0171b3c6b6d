/**
 * Two concrete resolutions against the declared names `tb_alpha` and
 * `tb_beta`, derived from the contract of `Resolve` alone.
 */
module Scenarios {
  import opened Levenshtein
  import opened Similarity
  import opened Suggestion

  /** What `Resolve` promises about `result` for `declared` and `target`. */
  ghost predicate ResolvesAs(declared: set<string>, target: string, result: Resolution)
  {
    && (result.Found? <==> target in declared)
    && (result.NotFound? ==>
         forall n :: n in result.suggestions <==> n in declared && IsSuggestion(n, target))
    && (result.NotFound? ==> target !in result.suggestions && NoDuplicates(result.suggestions))
    && (result.NotFound? ==> Ranked(result.suggestions, target))
  }

  /** The first elements of a list are among its members. */
  lemma LeadingElements(l: seq<string>)
    ensures |l| > 0 ==> l[0] in l
    ensures |l| > 2 ==> l[1] in l && l[2] in l
  {
  }

  /**
   * With two declared names, both offered for the target and the first
   * strictly closer, the suggestions are exactly those two, closer first.
   */
  lemma {:induction false} TwoSuggestionsInOrder(x: string, y: string, target: string, result: Resolution)
    requires ResolvesAs({x, y}, target, result)
    requires x != y && target != x && target != y
    requires IsSuggestion(x, target) && IsSuggestion(y, target)
    requires !ScoreLe(StringSimilarity(y, target), StringSimilarity(x, target))
    ensures result == NotFound([x, y])
  {
    var l := result.suggestions;
    assert x in l && y in l;
    var i :| 0 <= i < |l| && l[i] == x;
    var j :| 0 <= j < |l| && l[j] == y;
    LeadingElements(l);
    assert i < j;
  }

  /**
   * The typo `tb_alph` misses one character of `tb_alpha`, which therefore
   * comes first; `tb_beta` is also within the edit-distance budget, so it is
   * offered second.
   */
  lemma TypoSuggestsBothNamesClosestFirst(result: Resolution)
    requires ResolvesAs({"tb_alpha", "tb_beta"}, "tb_alph", result)
    ensures result == NotFound(["tb_alpha", "tb_beta"])
  {
    var alpha, beta, typo := "tb_alpha", "tb_beta", "tb_alph";
    assert alpha == typo + ['a'];
    assert alpha != typo && beta != typo && alpha != beta;
    EditDistToSelf(typo);
    EditDistExtend(typo, typo, 'a', 'a');
    EditDistZeroIff(alpha, typo);
    EditDistBounds(beta, typo);
    EditDistZeroIff(beta, typo);
    assert EditDist(alpha, typo) == 1;
    assert 1 <= EditDist(beta, typo) <= 7;
    TwoSuggestionsInOrder(alpha, beta, typo, result);
  }

  /** A name far longer than every declared one is neither close to nor contained in any: nothing is offered. */
  lemma DistantNameHasNoSuggestions(result: Resolution)
    requires ResolvesAs({"tb_alpha", "tb_beta"}, "xyz_nonexistent_zzz", result)
    ensures result == NotFound([])
  {
    var far := "xyz_nonexistent_zzz";
    forall n | n in {"tb_alpha", "tb_beta"}
      ensures !IsSuggestion(n, far)
    {
      EditDistBounds(n, far);
      assert |n| + MaxEditDistance < |far|;
    }
    LeadingElements(result.suggestions);
  }

  /** Running the lookup for the typo: `Resolve`'s own contract yields both names, closest first. */
  method ResolveTypo() returns (result: Resolution)
    ensures result == NotFound(["tb_alpha", "tb_beta"])
  {
    result := Resolve({"tb_alpha", "tb_beta"}, "tb_alph");
    TypoSuggestsBothNamesClosestFirst(result);
  }

  /** Running the lookup for the distant name: `Resolve`'s own contract yields no suggestion. */
  method ResolveDistantName() returns (result: Resolution)
    ensures result == NotFound([])
  {
    result := Resolve({"tb_alpha", "tb_beta"}, "xyz_nonexistent_zzz");
    DistantNameHasNoSuggestions(result);
  }
}
