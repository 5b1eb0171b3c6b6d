/**
 * The edit distance the test-bench runner uses to find near-miss names:
 * `calc_levenshtein_distance`, with unit weights for deletion, insertion and
 * substitution (a substitution is charged only when the two characters differ).
 */
module Levenshtein {

  function Min3(a: nat, b: nat, c: nat): (m: nat)
    ensures m <= a && m <= b && m <= c
    ensures m == a || m == b || m == c
  {
    if a <= b && a <= c then a else if b <= c then b else c
  }

  /**
   * The Levenshtein recurrence over prefixes, peeling the LAST character of
   * each operand: the cost of turning `s` into `t` is the cheapest of deleting
   * the last character of `s`, inserting the last character of `t`, or
   * aligning the two last characters (free when they are equal). This is the
   * recurrence that the two-row computation evaluates cell by cell.
   */
  function EditDist(s: string, t: string): nat
    decreases |s| + |t|
  {
    if |s| == 0 then |t|
    else if |t| == 0 then |s|
    else
      Min3(EditDist(s[..|s| - 1], t) + 1,
           EditDist(s, t[..|t| - 1]) + 1,
           EditDist(s[..|s| - 1], t[..|t| - 1]) + (if s[|s| - 1] != t[|t| - 1] then 1 else 0))
  }

  /** One cell of the table: the recurrence written in terms of prefixes of two fixed strings. */
  lemma EditDistStep(s1: string, s2: string, i: nat, j: nat)
    requires i < |s1| && j < |s2|
    ensures EditDist(s1[..i + 1], s2[..j + 1]) ==
            Min3(EditDist(s1[..i], s2[..j + 1]) + 1,
                 EditDist(s1[..i + 1], s2[..j]) + 1,
                 EditDist(s1[..i], s2[..j]) + (if s1[i] != s2[j] then 1 else 0))
  {
    var s, t := s1[..i + 1], s2[..j + 1];
    assert s[..|s| - 1] == s1[..i];
    assert t[..|t| - 1] == s2[..j];
  }

  /** A fresh copy of a row, as Python's `list.copy`. */
  method CopyRow(row: array<nat>) returns (copy: array<nat>)
    ensures fresh(copy) && copy.Length == row.Length
    ensures forall k :: 0 <= k < row.Length ==> copy[k] == row[k]
  {
    copy := new nat[row.Length];
    forall k | 0 <= k < row.Length {
      copy[k] := row[k];
    }
  }

  /**
   * One pass of the outer loop: given the row for the first `i` characters of
   * `s1`, fill `currentRow` with the row for the first `i + 1` characters.
   */
  method FillRow(s1: string, s2: string, i: nat, prevRow: array<nat>, currentRow: array<nat>)
    requires i < |s1|
    requires prevRow.Length == |s2| + 1 && currentRow.Length == |s2| + 1
    requires prevRow != currentRow
    requires forall k :: 0 <= k <= |s2| ==> prevRow[k] == EditDist(s1[..i], s2[..k])
    modifies currentRow
    ensures forall k :: 0 <= k <= |s2| ==> currentRow[k] == EditDist(s1[..i + 1], s2[..k])
  {
    currentRow[0] := i + 1;
    for j := 0 to |s2|
      invariant forall k :: 0 <= k <= j ==> currentRow[k] == EditDist(s1[..i + 1], s2[..k])
    {
      var deletionCost := prevRow[j + 1] + 1;
      var insertionCost := currentRow[j] + 1;
      var substitutionCost := prevRow[j] + (if s1[i] != s2[j] then 1 else 0);
      EditDistStep(s1, s2, i, j);
      currentRow[j + 1] := Min3(deletionCost, insertionCost, substitutionCost);
    }
  }

  /**
   * The two-rolling-row computation. After outer iteration `i`, `prevRow[j]`
   * holds the distance between the first `i` characters of `s1` and the first
   * `j` characters of `s2`; the answer is the last cell of the last row.
   */
  method CalcLevenshteinDistance(s1: string, s2: string) returns (d: nat)
    ensures d == EditDist(s1, s2)
  {
    var n1, n2 := |s1|, |s2|;
    var prevRow := new nat[n2 + 1];
    var currentRow := new nat[n2 + 1];

    for i := 0 to n2 + 1
      invariant forall j :: 0 <= j < i ==> prevRow[j] == EditDist(s1[..0], s2[..j])
    {
      prevRow[i] := i;
    }

    for i := 0 to n1
      invariant prevRow.Length == n2 + 1 && currentRow.Length == n2 + 1
      invariant prevRow != currentRow
      invariant forall j :: 0 <= j <= n2 ==> prevRow[j] == EditDist(s1[..i], s2[..j])
    {
      FillRow(s1, s2, i, prevRow, currentRow);
      prevRow := CopyRow(currentRow);
    }

    assert s1[..n1] == s1 && s2[..n2] == s2;
    d := prevRow[n2];
  }

  /** With an empty operand the distance is the other operand's length. */
  lemma EditDistEmptyOperand(s: string, t: string)
    ensures EditDist([], t) == |t|
    ensures EditDist(s, []) == |s|
  {
  }

  /** The distance of a string to itself is zero. */
  lemma {:induction false} EditDistToSelf(s: string)
    ensures EditDist(s, s) == 0
  {
    if |s| > 0 {
      EditDistToSelf(s[..|s| - 1]);
    }
  }

  /** The distance is zero exactly when the two strings are equal. */
  lemma {:induction false} EditDistZeroIff(s: string, t: string)
    ensures EditDist(s, t) == 0 <==> s == t
    decreases |s| + |t|
  {
    if s == t {
      EditDistToSelf(s);
    }
    if |s| > 0 && |t| > 0 && EditDist(s, t) == 0 {
      var s', t' := s[..|s| - 1], t[..|t| - 1];
      EditDistZeroIff(s', t');
      assert s == s' + [s[|s| - 1]];
      assert t == t' + [t[|t| - 1]];
    }
  }

  /** The distance lies between the difference of the lengths and the longer length. */
  lemma {:induction false} EditDistBounds(s: string, t: string)
    ensures |s| - |t| <= EditDist(s, t) && |t| - |s| <= EditDist(s, t)
    ensures EditDist(s, t) <= if |s| >= |t| then |s| else |t|
    decreases |s| + |t|
  {
    if |s| > 0 && |t| > 0 {
      EditDistBounds(s[..|s| - 1], t);
      EditDistBounds(s, t[..|t| - 1]);
      EditDistBounds(s[..|s| - 1], t[..|t| - 1]);
    }
  }

  /** Insertion and deletion weigh the same, so the distance is symmetric. */
  lemma {:induction false} EditDistSymmetric(s: string, t: string)
    ensures EditDist(s, t) == EditDist(t, s)
    decreases |s| + |t|
  {
    if |s| > 0 && |t| > 0 {
      EditDistSymmetric(s[..|s| - 1], t);
      EditDistSymmetric(s, t[..|t| - 1]);
      EditDistSymmetric(s[..|s| - 1], t[..|t| - 1]);
    }
  }

  /**
   * Extending either operand by one character costs at most one more edit,
   * and extending both by the same character costs nothing.
   */
  lemma EditDistExtend(s: string, t: string, a: char, c: char)
    ensures EditDist(s + [a], t + [c]) <= EditDist(s, t) + (if a == c then 0 else 1)
    ensures EditDist(s, t + [c]) <= EditDist(s, t) + 1
    ensures EditDist(s + [a], t) <= EditDist(s, t) + 1
  {
    assert (s + [a])[..|s|] == s;
    assert (t + [c])[..|t|] == t;
  }

  /** Cell `k + 1` of `cur` is filled from `prev` and `cur[k]` by the recurrence. */
  ghost predicate CellFollows(s1: string, s2: string, i: nat, prev: seq<nat>, cur: seq<nat>, k: nat)
  {
    i < |s1| && k < |s2| && k + 1 < |prev| && k + 1 < |cur| &&
    cur[k + 1] == Min3(prev[k + 1] + 1, cur[k] + 1, prev[k] + (if s1[i] != s2[k] then 1 else 0))
  }

  /**
   * The table row by row: when `prev` is the row of the first `i` characters
   * of `s1` and `cur` is filled from it by the recurrence, `cur` is the row of
   * the first `i + 1` characters (up to column `j`).
   */
  lemma {:induction false} TableRow(s1: string, s2: string, i: nat, prev: seq<nat>, cur: seq<nat>, j: nat)
    requires i < |s1| && |prev| == |s2| + 1 && |cur| == |s2| + 1 && j <= |s2|
    requires forall k :: 0 <= k <= |s2| ==> prev[k] == EditDist(s1[..i], s2[..k])
    requires cur[0] == i + 1
    requires forall k :: 0 <= k < |s2| ==> CellFollows(s1, s2, i, prev, cur, k)
    ensures forall k :: 0 <= k <= j ==> cur[k] == EditDist(s1[..i + 1], s2[..k])
    decreases j
  {
    if j == 0 {
      assert |s2[..0]| == 0 && |s1[..i + 1]| == i + 1;
    } else {
      TableRow(s1, s2, i, prev, cur, j - 1);
      EditDistStep(s1, s2, i, j - 1);
      assert prev[j] == EditDist(s1[..i], s2[..j]) && prev[j - 1] == EditDist(s1[..i], s2[..j - 1]);
      assert CellFollows(s1, s2, i, prev, cur, j - 1);
      assert cur[j] == EditDist(s1[..i + 1], s2[..j]);
    }
  }

  /** `row` is row `i` of the table: the distances from the first `i` characters of `s1` to every prefix of `s2`. */
  ghost predicate IsTableRow(s1: string, s2: string, i: nat, row: seq<nat>)
  {
    i <= |s1| && |row| == |s2| + 1 && forall k :: 0 <= k <= |s2| ==> row[k] == EditDist(s1[..i], s2[..k])
  }

  lemma KittenSittingRow1(s: string, t: string)
    requires s == "kitten" && t == "sitting"
    ensures IsTableRow(s, t, 1, [1, 1, 2, 3, 4, 5, 6, 7])
  {
    assert IsTableRow(s, t, 0, [0, 1, 2, 3, 4, 5, 6, 7]);
    var prev: seq<nat>, cur: seq<nat> := [0, 1, 2, 3, 4, 5, 6, 7], [1, 1, 2, 3, 4, 5, 6, 7];
    forall k | 0 <= k < 7
      ensures CellFollows(s, t, 0, prev, cur, k)
    {
      if k == 0 {} else if k == 1 {} else if k == 2 {} else if k == 3 {} else if k == 4 {} else if k == 5 {}
    }
    TableRow(s, t, 0, prev, cur, 7);
  }

  lemma KittenSittingRow2(s: string, t: string)
    requires s == "kitten" && t == "sitting"
    ensures IsTableRow(s, t, 2, [2, 2, 1, 2, 3, 4, 5, 6])
  {
    KittenSittingRow1(s, t);
    var prev: seq<nat>, cur: seq<nat> := [1, 1, 2, 3, 4, 5, 6, 7], [2, 2, 1, 2, 3, 4, 5, 6];
    forall k | 0 <= k < 7
      ensures CellFollows(s, t, 1, prev, cur, k)
    {
      if k == 0 {} else if k == 1 {} else if k == 2 {} else if k == 3 {} else if k == 4 {} else if k == 5 {}
    }
    TableRow(s, t, 1, prev, cur, 7);
  }

  lemma KittenSittingRow3(s: string, t: string)
    requires s == "kitten" && t == "sitting"
    ensures IsTableRow(s, t, 3, [3, 3, 2, 1, 2, 3, 4, 5])
  {
    KittenSittingRow2(s, t);
    var prev: seq<nat>, cur: seq<nat> := [2, 2, 1, 2, 3, 4, 5, 6], [3, 3, 2, 1, 2, 3, 4, 5];
    forall k | 0 <= k < 7
      ensures CellFollows(s, t, 2, prev, cur, k)
    {
      if k == 0 {} else if k == 1 {} else if k == 2 {} else if k == 3 {} else if k == 4 {} else if k == 5 {}
    }
    TableRow(s, t, 2, prev, cur, 7);
  }

  lemma KittenSittingRow4(s: string, t: string)
    requires s == "kitten" && t == "sitting"
    ensures IsTableRow(s, t, 4, [4, 4, 3, 2, 1, 2, 3, 4])
  {
    KittenSittingRow3(s, t);
    var prev: seq<nat>, cur: seq<nat> := [3, 3, 2, 1, 2, 3, 4, 5], [4, 4, 3, 2, 1, 2, 3, 4];
    forall k | 0 <= k < 7
      ensures CellFollows(s, t, 3, prev, cur, k)
    {
      if k == 0 {} else if k == 1 {} else if k == 2 {} else if k == 3 {} else if k == 4 {} else if k == 5 {}
    }
    TableRow(s, t, 3, prev, cur, 7);
  }

  lemma KittenSittingRow5(s: string, t: string)
    requires s == "kitten" && t == "sitting"
    ensures IsTableRow(s, t, 5, [5, 5, 4, 3, 2, 2, 3, 4])
  {
    KittenSittingRow4(s, t);
    var prev: seq<nat>, cur: seq<nat> := [4, 4, 3, 2, 1, 2, 3, 4], [5, 5, 4, 3, 2, 2, 3, 4];
    forall k | 0 <= k < 7
      ensures CellFollows(s, t, 4, prev, cur, k)
    {
      if k == 0 {} else if k == 1 {} else if k == 2 {} else if k == 3 {} else if k == 4 {} else if k == 5 {}
    }
    TableRow(s, t, 4, prev, cur, 7);
  }

  lemma KittenSittingRow6(s: string, t: string)
    requires s == "kitten" && t == "sitting"
    ensures IsTableRow(s, t, 6, [6, 6, 5, 4, 3, 3, 2, 3])
  {
    KittenSittingRow5(s, t);
    var prev: seq<nat>, cur: seq<nat> := [5, 5, 4, 3, 2, 2, 3, 4], [6, 6, 5, 4, 3, 3, 2, 3];
    forall k | 0 <= k < 7
      ensures CellFollows(s, t, 5, prev, cur, k)
    {
      if k == 0 {} else if k == 1 {} else if k == 2 {} else if k == 3 {} else if k == 4 {} else if k == 5 {}
    }
    TableRow(s, t, 5, prev, cur, 7);
  }

  /** The textbook example: "kitten" becomes "sitting" in three edits and no fewer. */
  lemma KittenSitting()
    ensures EditDist("kitten", "sitting") == 3
  {
    var s, t := "kitten", "sitting";
    KittenSittingRow6(s, t);
    assert s[..6] == s && t[..7] == t;
  }
}
