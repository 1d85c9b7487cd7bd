/**
 * What the recurrence computes: the least number of edits in a script of
 * keeps, deletions and insertions that turns one string into the other.
 * `OptimalScript` builds a script as cheap as `EditDistance`, and
 * `NoCheaperScript` shows that no script is cheaper.
 */
module EditScripts {
  import opened Recursive

  /**
   * Keep copies the next character of the source, Delete drops it, and
   * Insert(c) emits c without consuming anything.
   */
  datatype Edit = Keep | Delete | Insert(c: char)

  /** The script s turns x into y. */
  predicate Transforms(s: seq<Edit>, x: string, y: string)
    decreases |s|
  {
    if s == [] then
      x == [] && y == []
    else
      match s[0]
      case Keep => x != [] && y != [] && x[0] == y[0] && Transforms(s[1..], x[1..], y[1..])
      case Delete => x != [] && Transforms(s[1..], x[1..], y)
      case Insert(c) => y != [] && y[0] == c && Transforms(s[1..], x, y[1..])
  }

  /** The number of deletions and insertions; keeping is free. */
  function Cost(s: seq<Edit>): (c: nat)
  {
    if s == [] then 0 else (if s[0].Keep? then 0 else 1) + Cost(s[1..])
  }

  /** A script that follows the choices of the suffix recurrence. */
  function OptimalScript(x: string, y: string): (s: seq<Edit>)
    ensures Transforms(s, x, y)
    ensures Cost(s) == EditDistance(x, y)
    decreases |x| + |y|
  {
    if x == [] && y == [] then
      []
    else if y == [] then
      [Delete] + OptimalScript(x[1..], y)
    else if x == [] then
      [Insert(y[0])] + OptimalScript(x, y[1..])
    else
      HeadStep(x, y);
      if x[0] == y[0] then
        [Keep] + OptimalScript(x[1..], y[1..])
      else if EditDistance(x[1..], y) <= EditDistance(x, y[1..]) then
        [Delete] + OptimalScript(x[1..], y)
      else
        [Insert(y[0])] + OptimalScript(x, y[1..])
  }

  /** Every script that turns x into y costs at least EditDistance(x, y). */
  lemma {:induction false} NoCheaperScript(s: seq<Edit>, x: string, y: string)
    requires Transforms(s, x, y)
    ensures EditDistance(x, y) <= Cost(s)
    decreases |s|
  {
    if s != [] {
      match s[0]
      case Keep =>
        NoCheaperScript(s[1..], x[1..], y[1..]);
        HeadStep(x, y);
      case Delete =>
        NoCheaperScript(s[1..], x[1..], y);
        DropSourceBound(x, y);
      case Insert(c) =>
        NoCheaperScript(s[1..], x, y[1..]);
        DropTargetBound(x, y);
    }
  }

  /** EditDistance(x, y) is the least cost of a script from x to y. */
  lemma DistanceIsLeastCost(x: string, y: string)
    ensures exists s :: Transforms(s, x, y) && Cost(s) == EditDistance(x, y)
    ensures forall s :: Transforms(s, x, y) ==> EditDistance(x, y) <= Cost(s)
  {
    var best := OptimalScript(x, y);
    assert Transforms(best, x, y) && Cost(best) == EditDistance(x, y);
    forall s | Transforms(s, x, y)
      ensures EditDistance(x, y) <= Cost(s)
    {
      NoCheaperScript(s, x, y);
    }
  }

  /**
   * Running s1 (x to y) and then s2 (y to z) as one script from x to z.
   * A character that s1 inserts and s2 deletes is never written, so the
   * combined script costs at most the sum of the two.
   */
  lemma {:induction false} Compose(s1: seq<Edit>, s2: seq<Edit>, x: string, y: string, z: string)
    returns (s: seq<Edit>)
    requires Transforms(s1, x, y) && Transforms(s2, y, z)
    ensures Transforms(s, x, z) && Cost(s) <= Cost(s1) + Cost(s2)
    decreases |s1| + |s2|
  {
    if s2 != [] && s2[0].Insert? {
      var rest := Compose(s1, s2[1..], x, y, z[1..]);
      s := [s2[0]] + rest;
    } else if s1 == [] {
      s := [];
    } else if s1[0].Delete? {
      var rest := Compose(s1[1..], s2, x[1..], y, z);
      s := [Delete] + rest;
    } else if s1[0].Insert? {
      if s2[0].Keep? {
        var rest := Compose(s1[1..], s2[1..], x, y[1..], z[1..]);
        s := [Insert(z[0])] + rest;
      } else {
        s := Compose(s1[1..], s2[1..], x, y[1..], z);
      }
    } else {
      if s2[0].Keep? {
        var rest := Compose(s1[1..], s2[1..], x[1..], y[1..], z[1..]);
        s := [Keep] + rest;
      } else {
        var rest := Compose(s1[1..], s2[1..], x[1..], y[1..], z);
        s := [Delete] + rest;
      }
    }
  }

  /** The insert/delete distance obeys the triangle inequality. */
  lemma TriangleInequality(x: string, y: string, z: string)
    ensures EditDistance(x, z) <= EditDistance(x, y) + EditDistance(y, z)
  {
    var s1 := OptimalScript(x, y);
    var s2 := OptimalScript(y, z);
    var s := Compose(s1, s2, x, y, z);
    NoCheaperScript(s, x, z);
  }
}
