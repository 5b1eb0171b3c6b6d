/**
 * What the edit distance means: the least total cost of a sequence of
 * single-character edits (insertion, deletion, substitution, each of weight
 * one; keeping a character is free) that turns one string into the other.
 */
module EditScripts {
  import opened Wrappers
  import opened Levenshtein

  /**
   * One step of an alignment read left to right: keep the next character of
   * the source, replace it by `c`, emit `c` without consuming anything, or
   * drop the next character of the source.
   */
  datatype Op = Keep | Substitute(c: char) | Insert(c: char) | Delete

  function OpCost(op: Op): nat
  {
    if op.Keep? then 0 else 1
  }

  function Cost(ops: seq<Op>): nat
  {
    if |ops| == 0 then 0 else Cost(ops[..|ops| - 1]) + OpCost(ops[|ops| - 1])
  }

  /**
   * The string that `ops` produces from `s`, or None when the script does not
   * consume `s` exactly (it keeps, replaces or drops a character `s` does not
   * have, or leaves characters of `s` unconsumed).
   */
  function Apply(s: string, ops: seq<Op>): Option<string>
    decreases |ops|
  {
    if |ops| == 0 then
      (if |s| == 0 then Some([]) else None)
    else
      var rest, op := ops[..|ops| - 1], ops[|ops| - 1];
      if op.Insert? then
        match Apply(s, rest)
        case None => None
        case Some(u) => Some(u + [op.c])
      else if |s| == 0 then None
      else
        match Apply(s[..|s| - 1], rest)
        case None => None
        case Some(u) =>
          if op.Keep? then Some(u + [s[|s| - 1]])
          else if op.Substitute? then Some(u + [op.c])
          else Some(u)
  }

  /** No script is cheaper than the edit distance. */
  lemma {:induction false} EditDistIsMinimal(s: string, ops: seq<Op>, t: string)
    requires Apply(s, ops) == Some(t)
    ensures EditDist(s, t) <= Cost(ops)
    decreases |ops|
  {
    if |ops| > 0 {
      var rest, op := ops[..|ops| - 1], ops[|ops| - 1];
      if op.Insert? {
        var u := Apply(s, rest).value;
        EditDistIsMinimal(s, rest, u);
        EditDistExtend(s, u, op.c, op.c);
      } else {
        var s', a := s[..|s| - 1], s[|s| - 1];
        var u := Apply(s', rest).value;
        EditDistIsMinimal(s', rest, u);
        assert s == s' + [a];
        EditDistExtend(s', u, a, if op.Substitute? then op.c else a);
      }
    }
  }

  /** Appending one step to a script: its effect and its cost. */
  lemma AppendStep(s: string, ops: seq<Op>, op: Op)
    ensures Cost(ops + [op]) == Cost(ops) + OpCost(op)
    ensures Apply(s, ops + [op]) ==
      if op.Insert? then
        (match Apply(s, ops)
         case None => None
         case Some(u) => Some(u + [op.c]))
      else if |s| == 0 then None
      else
        (match Apply(s[..|s| - 1], ops)
         case None => None
         case Some(u) =>
           if op.Keep? then Some(u + [s[|s| - 1]])
           else if op.Substitute? then Some(u + [op.c])
           else Some(u))
  {
    assert (ops + [op])[..|ops|] == ops;
  }

  /** Inserting the last character of `t` after a script that produces the rest of `t`. */
  lemma ExtendByInsert(s: string, ops: seq<Op>, t: string)
    requires |t| > 0 && Apply(s, ops) == Some(t[..|t| - 1])
    ensures Apply(s, ops + [Insert(t[|t| - 1])]) == Some(t)
    ensures Cost(ops + [Insert(t[|t| - 1])]) == Cost(ops) + 1
  {
    AppendStep(s, ops, Insert(t[|t| - 1]));
    assert t == t[..|t| - 1] + [t[|t| - 1]];
  }

  /** Deleting the last character of `s` after a script that turns the rest of `s` into `t`. */
  lemma ExtendByDelete(s: string, ops: seq<Op>, t: string)
    requires |s| > 0 && Apply(s[..|s| - 1], ops) == Some(t)
    ensures Apply(s, ops + [Delete]) == Some(t)
    ensures Cost(ops + [Delete]) == Cost(ops) + 1
  {
    AppendStep(s, ops, Delete);
  }

  /** Aligning the two last characters: keep when they are equal, substitute otherwise. */
  lemma ExtendByAlign(s: string, ops: seq<Op>, t: string)
    requires |s| > 0 && |t| > 0 && Apply(s[..|s| - 1], ops) == Some(t[..|t| - 1])
    ensures var op := if s[|s| - 1] == t[|t| - 1] then Keep else Substitute(t[|t| - 1]);
            Apply(s, ops + [op]) == Some(t) &&
            Cost(ops + [op]) == Cost(ops) + (if s[|s| - 1] != t[|t| - 1] then 1 else 0)
  {
    var u, a, c := t[..|t| - 1], s[|s| - 1], t[|t| - 1];
    assert t == u + [c];
    if a == c {
      AppendStep(s, ops, Keep);
      assert Apply(s, ops + [Keep]) == Some(u + [a]);
    } else {
      AppendStep(s, ops, Substitute(c));
      assert Apply(s, ops + [Substitute(c)]) == Some(u + [c]);
    }
  }

  /** When neither operand is empty, the distance is reached by one of the three last steps. */
  lemma EditDistLastStep(s: string, t: string)
    requires |s| > 0 && |t| > 0
    ensures || EditDist(s, t) == EditDist(s, t[..|t| - 1]) + 1
            || EditDist(s, t) == EditDist(s[..|s| - 1], t) + 1
            || EditDist(s, t) == EditDist(s[..|s| - 1], t[..|t| - 1]) + (if s[|s| - 1] != t[|t| - 1] then 1 else 0)
  {
  }

  /** A script that attains the edit distance, built by following the recurrence back. */
  function OptimalScript(s: string, t: string): (ops: seq<Op>)
    ensures Apply(s, ops) == Some(t)
    ensures Cost(ops) == EditDist(s, t)
    decreases |s| + |t|
  {
    if |s| == 0 && |t| == 0 then []
    else if |s| == 0 || (|t| > 0 && EditDist(s, t) == EditDist(s, t[..|t| - 1]) + 1) then
      var prefix := OptimalScript(s, t[..|t| - 1]);
      ExtendByInsert(s, prefix, t);
      EditDistEmptyOperand(s, t);
      EditDistEmptyOperand(s, t[..|t| - 1]);
      prefix + [Insert(t[|t| - 1])]
    else if |t| == 0 || EditDist(s, t) == EditDist(s[..|s| - 1], t) + 1 then
      var prefix := OptimalScript(s[..|s| - 1], t);
      ExtendByDelete(s, prefix, t);
      EditDistEmptyOperand(s, t);
      EditDistEmptyOperand(s[..|s| - 1], t);
      prefix + [Delete]
    else
      var prefix := OptimalScript(s[..|s| - 1], t[..|t| - 1]);
      ExtendByAlign(s, prefix, t);
      EditDistLastStep(s, t);
      prefix + [if s[|s| - 1] == t[|t| - 1] then Keep else Substitute(t[|t| - 1])]
  }

  /** The edit distance is exactly the least cost of a script from `s` to `t`. */
  lemma EditDistIsLeastScriptCost(s: string, t: string)
    ensures exists ops :: Apply(s, ops) == Some(t) && Cost(ops) == EditDist(s, t)
    ensures forall ops :: Apply(s, ops) == Some(t) ==> EditDist(s, t) <= Cost(ops)
  {
    var best := OptimalScript(s, t);
    assert Apply(s, best) == Some(t) && Cost(best) == EditDist(s, t);
    forall ops | Apply(s, ops) == Some(t)
      ensures EditDist(s, t) <= Cost(ops)
    {
      EditDistIsMinimal(s, ops, t);
    }
  }
}
