# Test-bench runner: name lookup and typo suggestions

The ModelSim helper `modelsim/run_test.py` of the MiMC/BN254 hardware project
runs one SystemVerilog test bench, chosen by module name. Before running it,
the script collects the module names declared in the `tb_*.sv` files. It does
this with a regular expression for `module NAME (...);` headers. If the
requested name is not declared, the script suggests the declared names that
are close to it. A name is close when its Levenshtein distance is at most 10
(`MAX_EDIT_DISTANCE`) or when it contains the requested name. The suggestions
are sorted by a similarity score: the distance divided by the length of the
longer name, so the closest name comes first.

This project models that logic in Dafny:

- `Levenshtein`: the edit distance. `EditDist` is the recurrence on prefixes.
  `CalcLevenshteinDistance` is the script's two-rolling-row computation over
  arrays. It is proved to return `EditDist`. Lemmas prove the properties of the
  metric: zero exactly on equal strings, symmetry, and bounds by the lengths.
  `KittenSitting` evaluates the table on the standard example: the distance
  from `kitten` to `sitting` is 3.
- `EditScripts`: what the distance means. No script of single-character
  insertions, deletions and substitutions is cheaper than `EditDist`, and some
  script costs exactly `EditDist`.
- `Similarity`: the score `distance / max(len)`, kept as an exact fraction. The
  fractions are ordered by cross-multiplication. Lemmas show that this order
  agrees with the order of the real quotients and that it is total and
  transitive.
- `Extraction`: an exact model of one match of
  `module\s+(\w+)(?:\s*\([^;]*\))?\s*;` at a position, with the regex's
  backtracking worked out. It also models `finditer`'s left-to-right,
  non-overlapping scan, and the per-file and per-directory collection of names.
- `Suggestion`: `str.find`, the two selection passes, ranking by score, and
  `RunTest`, which is `main` without its input and output.
- `Scenarios`: two concrete resolutions against the declared names
  `tb_alpha` and `tb_beta`. Both are derived only from `Resolve`'s contract.

For the typo `tb_alph` against `tb_alpha` and `tb_beta`, the code suggests
both names. `tb_beta` is within distance 7 of the typo, inside the budget of
10. `tb_alpha` comes first because its score 1/8 is below that of `tb_beta`,
which is at least 1/7. `Scenarios.TypoSuggestsBothNamesClosestFirst` states
this result, and `Scenarios.ResolveTypo` obtains it from `Resolve`.

## Model

| member | source | states |
|---|---|---|
| Levenshtein.Min3 | mimc-hash-bn254/modelsim/run_test.py:33 | the result is at most each of the three costs and equals one of them, as `min` does |
| Levenshtein.EditDistStep | mimc-hash-bn254/modelsim/run_test.py:30-33 | the value of one table cell is the minimum of deletion (cell above + 1), insertion (cell to the left + 1) and substitution (diagonal cell + 1 exactly when `s1[i] != s2[j]`) |
| Levenshtein.CopyRow | mimc-hash-bn254/modelsim/run_test.py:35 | `list.copy`: a fresh array with the same length and elements |
| Levenshtein.FillRow | mimc-hash-bn254/modelsim/run_test.py:28-33 | given the row for the first `i` characters of `s1`, one pass of the inner loop leaves in `current_row` the distances from the first `i + 1` characters of `s1` to every prefix of `s2` |
| Levenshtein.CalcLevenshteinDistance | mimc-hash-bn254/modelsim/run_test.py:12-37 | the two-row computation returns exactly the Levenshtein distance `EditDist(s1, s2)`; its loop invariant is that `prev_row[j]` is the distance between the prefixes of lengths `i` and `j` |
| Levenshtein.EditDistEmptyOperand | mimc-hash-bn254/modelsim/run_test.py:24-28 | against an empty string the distance is the other string's length (the initial row and column of the table) |
| Levenshtein.EditDistToSelf | mimc-hash-bn254/modelsim/run_test.py:12-37 | a string is at distance 0 from itself |
| Levenshtein.EditDistZeroIff | mimc-hash-bn254/modelsim/run_test.py:12-37 | the distance is 0 if and only if the strings are equal (both directions) |
| Levenshtein.EditDistBounds | mimc-hash-bn254/modelsim/run_test.py:12-37 | the distance is at least the difference of the lengths and at most the longer length |
| Levenshtein.EditDistSymmetric | mimc-hash-bn254/modelsim/run_test.py:14-16 | insertion and deletion have the same weight, so the distance from `s` to `t` equals the distance from `t` to `s` |
| Levenshtein.EditDistExtend | mimc-hash-bn254/modelsim/run_test.py:30-32 | appending a character to one operand adds at most 1; appending to both adds at most 1, and adds nothing when the two characters are equal |
| Levenshtein.TableRow | mimc-hash-bn254/modelsim/run_test.py:28-33 | a row filled from the previous one by the recurrence of the inner loop holds the distances from one more character of `s1` to every prefix of `s2` |
| Levenshtein.KittenSitting | mimc-hash-bn254/modelsim/run_test.py:12-37 | the distance from `kitten` to `sitting` is exactly 3 |
| EditScripts.EditDistIsMinimal | mimc-hash-bn254/modelsim/run_test.py:12-37 | every script of unit-weight edits that turns `s` into `t` costs at least the computed distance |
| EditScripts.AppendStep | mimc-hash-bn254/modelsim/run_test.py:14-16 | appending one edit to a script adds its weight (0 for keeping, 1 otherwise) and extends the produced string by that edit |
| EditScripts.ExtendByInsert | mimc-hash-bn254/modelsim/run_test.py:31 | inserting the last character of `t` after a script for the rest of `t` produces `t` at one more unit |
| EditScripts.ExtendByDelete | mimc-hash-bn254/modelsim/run_test.py:30 | deleting the last character of `s` after a script for the rest of `s` produces the same string at one more unit |
| EditScripts.ExtendByAlign | mimc-hash-bn254/modelsim/run_test.py:32 | aligning the last characters costs 0 when they are equal and 1 otherwise, and produces `t` |
| EditScripts.EditDistLastStep | mimc-hash-bn254/modelsim/run_test.py:30-33 | with both strings non-empty, the distance is reached by a deletion, an insertion or an alignment of the last characters |
| EditScripts.OptimalScript | mimc-hash-bn254/modelsim/run_test.py:12-37 | builds a script that turns `s` into `t` and costs exactly the distance |
| EditScripts.EditDistIsLeastScriptCost | mimc-hash-bn254/modelsim/run_test.py:12-37 | the distance is the least cost of an edit script: some script attains it and none is cheaper |
| Similarity.StringSimilarity | mimc-hash-bn254/modelsim/run_test.py:40-44 | the score's denominator is the longer length and is positive; the numerator is at most the denominator; the numerator is 0 if and only if the strings are equal |
| Similarity.ScoreInUnitInterval | mimc-hash-bn254/modelsim/run_test.py:42-43 | as a real quotient, the score lies between 0 and 1 |
| Similarity.QuotientInUnitInterval | mimc-hash-bn254/modelsim/run_test.py:43 | `d / n` lies in [0, 1] when `0 <= d <= n` and `n > 0` |
| Similarity.CalcStringSimilarity | mimc-hash-bn254/modelsim/run_test.py:40-44 | computed from the array-based distance, the score equals `StringSimilarity` |
| Similarity.ScoreLeIsQuotientOrder | mimc-hash-bn254/modelsim/run_test.py:43 | for positive denominators, the cross-multiplied order holds if and only if the real quotients are in order |
| Similarity.ScoreLeTotal | mimc-hash-bn254/modelsim/run_test.py:95 | any two scores are comparable, so sorting by score is well defined |
| Similarity.ScoreLeTransitive | mimc-hash-bn254/modelsim/run_test.py:95 | the score order is transitive through a score with a positive denominator |
| Extraction.SpaceEnd | mimc-hash-bn254/modelsim/run_test.py:52 | `\s+` / `\s*` taken greedily: the end of the longest whitespace run from `i` |
| Extraction.WordEnd | mimc-hash-bn254/modelsim/run_test.py:52 | `(\w+)` taken greedily: the end of the longest word-character run from `i` |
| Extraction.SemicolonFrom | mimc-hash-bn254/modelsim/run_test.py:52 | `[^;]*` taken greedily: the position of the first `;` from `i`, or the end of the text |
| Extraction.SpaceStartBefore | mimc-hash-bn254/modelsim/run_test.py:52 | backtracking of `[^;]*` before `\s*;`: the start of the whitespace run that ends at the `;` |
| Extraction.MatchAt | mimc-hash-bn254/modelsim/run_test.py:52 | a match at `p` starts with `module`, captures an identifier, ends just after a `;`, and holds no other `;` |
| Extraction.ScanFrom | mimc-hash-bn254/modelsim/run_test.py:52-54 | `finditer` from `p`: every kept name is an identifier |
| Extraction.ScanOverMatch | mimc-hash-bn254/modelsim/run_test.py:52-54 | where a match starts, `finditer` keeps its name and resumes after the match |
| Extraction.ScanOverNoMatch | mimc-hash-bn254/modelsim/run_test.py:52-54 | where no match starts, `finditer` moves on by one character |
| Extraction.ScanSound | mimc-hash-bn254/modelsim/run_test.py:52-54 | every name the scan keeps is captured by a match at some position |
| Extraction.ScanFindsFirstAfterSemicolon | mimc-hash-bn254/modelsim/run_test.py:52-54 | a match is found unless another match starts between it and the last `;` before it |
| Extraction.SpaceEndOfRun | mimc-hash-bn254/modelsim/run_test.py:52 | a maximal whitespace run is what `\s*` consumes |
| Extraction.WordEndOfRun | mimc-hash-bn254/modelsim/run_test.py:52 | a maximal word run is what `\w+` consumes |
| Extraction.SemicolonFromFirst | mimc-hash-bn254/modelsim/run_test.py:52 | the first `;` is where `[^;]*` stops |
| Extraction.MatchAfterName | mimc-hash-bn254/modelsim/run_test.py:52 | the part of a match after the name (`(?:\s*\([^;]*\))?\s*;`): it keeps the name, ends just after a `;`, and holds no other `;` after the name |
| Extraction.MatchAtName | mimc-hash-bn254/modelsim/run_test.py:52 | once `module`, whitespace and a name are read, whether the pattern matches is decided by what follows the name |
| Extraction.NoMatchWithoutKeyword | mimc-hash-bn254/modelsim/run_test.py:52 | no match starts at a character other than the `m` of `module` |
| Extraction.MatchAfterPlain | mimc-hash-bn254/modelsim/run_test.py:52 | without a parameter group, the match ends at the `;` after the name and its whitespace |
| Extraction.MatchAfterGroup | mimc-hash-bn254/modelsim/run_test.py:52 | a `(` after the name (optional whitespace between them) and a `)` that only whitespace separates from the next `;`: the match takes the group and ends at that `;` |
| Extraction.SpaceStartOfRun | mimc-hash-bn254/modelsim/run_test.py:52 | the whitespace run just before the `;` that starts after a non-space is what `[^;]*` gives back to `\s*` when it backtracks |
| Extraction.NameAfterKeyword | mimc-hash-bn254/modelsim/run_test.py:52 | after `module` and a space, `(\w+)` captures exactly the name |
| Extraction.GroupAfterName | mimc-hash-bn254/modelsim/run_test.py:52 | a group `(PARAMS);` without `;` in PARAMS is taken, and the match ends after its `;` |
| Extraction.PlainDeclarationMatches | mimc-hash-bn254/modelsim/run_test.py:52-53 | `module NAME;` is matched where it starts, capturing NAME |
| Extraction.ParameterisedDeclarationMatches | mimc-hash-bn254/modelsim/run_test.py:52-53 | `module NAME(PARAMS);` is matched, capturing NAME, when PARAMS holds no `;` |
| Extraction.TwoDeclarationsLayout | mimc-hash-bn254/modelsim/run_test.py:52 | where each declaration lies in a text of two declarations on two lines |
| Extraction.TwoDeclarationsScan | mimc-hash-bn254/modelsim/run_test.py:52-54 | any text laid out as `module A;`, a line break, then `module B(PARAMS);` declares exactly A and B |
| Extraction.ScanThreeSteps | mimc-hash-bn254/modelsim/run_test.py:52-54 | a match up to a line break, no match at the line break, and a match from there to the end: the scan keeps exactly the two names |
| Extraction.TwoDeclarationsFound | mimc-hash-bn254/modelsim/run_test.py:47-56 | a file with `module A;` and, on the next line, `module B(PARAMS);` declares exactly `{A, B}` |
| Extraction.ExtractFromFile | mimc-hash-bn254/modelsim/run_test.py:47-56 | the loop over matches returns exactly the scan's names, all of them identifiers |
| Extraction.ExtractFromDir | mimc-hash-bn254/modelsim/run_test.py:59-67 | a name is returned if and only if some file declares it |
| Suggestion.FindFrom | mimc-hash-bn254/modelsim/run_test.py:91 | the first occurrence of `sub` at or after `i`, or -1 when there is none |
| Suggestion.Find | mimc-hash-bn254/modelsim/run_test.py:91 | `str.find`: -1 if and only if `sub` does not occur; otherwise the first index at which it occurs |
| Suggestion.FrontStaysSorted | mimc-hash-bn254/modelsim/run_test.py:95 | placing a no-larger score in front keeps the list sorted |
| Suggestion.HeadStaysSorted | mimc-hash-bn254/modelsim/run_test.py:95 | keeping the smallest head in front of a sorted rest keeps the list sorted |
| Suggestion.HeadStaysDistinct | mimc-hash-bn254/modelsim/run_test.py:94 | keeping the head in front of a rest of distinct names keeps the names distinct |
| Suggestion.InsertByScore | mimc-hash-bn254/modelsim/run_test.py:95 | inserting into a score-sorted list keeps it sorted, adds exactly the new element, and keeps names distinct |
| Suggestion.RankSuggestions | mimc-hash-bn254/modelsim/run_test.py:93-95 | the sorted list holds each candidate exactly once and is ordered by non-decreasing score |
| Suggestion.Resolve | mimc-hash-bn254/modelsim/run_test.py:82-95 | the target resolves if and only if it is declared; otherwise the suggestions are exactly the declared names within distance 10 or containing the target, with no duplicates, never the target itself, and ordered by score |
| Suggestion.RunTest | mimc-hash-bn254/modelsim/run_test.py:70-102 | the declarations of all files, then resolution: found if and only if some file declares the target; otherwise ranked suggestions drawn from all files |
| Scenarios.TwoSuggestionsInOrder | mimc-hash-bn254/modelsim/run_test.py:82-95 | with two declared names, both suggested and the first strictly closer, the output is exactly those two, closer first |
| Scenarios.TypoSuggestsBothNamesClosestFirst | mimc-hash-bn254/modelsim/run_test.py:82-95 | for `tb_alph` against `tb_alpha` and `tb_beta`, the suggestions are `tb_alpha` then `tb_beta` |
| Scenarios.DistantNameHasNoSuggestions | mimc-hash-bn254/modelsim/run_test.py:82-95 | `xyz_nonexistent_zzz` is more than 10 edits from both names and longer than either, so nothing is suggested |
| Scenarios.ResolveTypo | mimc-hash-bn254/modelsim/run_test.py:82-95 | calling `Resolve` for `tb_alph` against `tb_alpha` and `tb_beta` returns the suggestions `tb_alpha`, then `tb_beta` |
| Scenarios.ResolveDistantName | mimc-hash-bn254/modelsim/run_test.py:82-95 | calling `Resolve` for `xyz_nonexistent_zzz` against the same names returns no suggestion |

## Left out

- Reading files (`open`, `Path.glob("tb_*.sv")`, the script's own path): the model takes the texts of the test-bench files as a sequence of strings. Which files the glob picks is not modelled.
- Command-line parsing (`argparse`), the printed messages, `exit(1)` and the `subprocess.check_call` that runs the bench are I/O and are left out. `Resolution.Found` stands for "the bench is run". `NotFound` stands for "the error and suggestions are printed and the script exits with status 1".
- Extraction.IsWordChar and Extraction.IsSpace: Python's `\w` and `\s` on `str` patterns are Unicode-aware. The model uses their ASCII subsets, so names or whitespace made of other Unicode characters are not captured. The `re.DOTALL` flag does not affect this pattern, which has no `.`; `[^;]` matches newlines in either mode.
- Similarity.StringSimilarity: the float division `distance / n` is replaced by the exact fraction. Rounding to the nearest double is monotone, so it keeps the order of the exact quotients. With names shorter than 2^26 characters, distinct quotients also stay distinct as doubles.
- Similarity.StringSimilarity requires a non-empty operand. The script would raise `ZeroDivisionError` when both strings are empty. That cannot happen when the script runs: declared names are never empty, and the score is only taken for suggestions.
- Suggestion.RankSuggestions: `list(set)` and the stable `list.sort` are modelled as insertion into a list sorted by score, over an arbitrary choice of element order. Python's set iteration order is unspecified, so the order among equal scores is left open. The sort in place is modelled on values.
- Suggestion.Resolve: the two `update` calls of the script are modelled as two loops over the declared names, taken in an arbitrary order.
