/**
 * The insert/delete edit distance as the plain suffix recurrence of
 * recursive.cpp. `Distance(S, T, i, j)` is the least number of single
 * character deletions and insertions that turn the suffix S[i..] into the
 * suffix T[j..]; there is no substitution. Every other strategy in this
 * project is proved to compute `EditDistance(S, T) == Distance(S, T, 0, 0)`.
 */
module Recursive {

  /** std::min on two integers. */
  function Min(a: int, b: int): (r: int)
  {
    if b < a then b else a
  }

  /** The suffix recurrence of editDistanceRecursive. */
  function Distance(S: string, T: string, i: nat, j: nat): (r: nat)
    requires i <= |S| && j <= |T|
    // deleting all of S[i..] and then inserting all of T[j..] always works
    ensures r <= (|S| - i) + (|T| - j)
    // at least the difference in length must be inserted or deleted
    ensures r >= (|S| - i) - (|T| - j) && r >= (|T| - j) - (|S| - i)
    decreases (|S| - i) + (|T| - j)
  {
    if i == |S| then
      |T| - j
    else if j == |T| then
      |S| - i
    else if S[i] == T[j] then
      Distance(S, T, i + 1, j + 1)
    else
      Min(1 + Distance(S, T, i + 1, j), 1 + Distance(S, T, i, j + 1))
  }

  /**
   * Every kept character saves one deletion and one insertion, so the
   * distance has the parity of |S[i..]| + |T[j..]|.
   */
  lemma {:induction false} DistanceParity(S: string, T: string, i: nat, j: nat)
    requires i <= |S| && j <= |T|
    ensures (Distance(S, T, i, j) + (|S| - i) + (|T| - j)) % 2 == 0
    decreases (|S| - i) + (|T| - j)
  {
    if i < |S| && j < |T| {
      if S[i] == T[j] {
        DistanceParity(S, T, i + 1, j + 1);
      } else {
        DistanceParity(S, T, i + 1, j);
        DistanceParity(S, T, i, j + 1);
      }
    }
  }

  /** The distance between two whole strings: the call at (0, 0). */
  function EditDistance(S: string, T: string): (d: nat)
  {
    Distance(S, T, 0, 0)
  }

  /**
   * The base case at the end of S (recursive.cpp, first base case). This
   * and the next three lemmas only unfold one step of `Distance`; they
   * name the four branches of the recurrence.
   */
  lemma EndOfSource(S: string, T: string, j: nat)
    requires j <= |T|
    ensures Distance(S, T, |S|, j) == |T| - j
  {
  }

  /** The base case at the end of T while S still has characters (one unfolding). */
  lemma EndOfTarget(S: string, T: string, i: nat)
    requires i < |S|
    ensures Distance(S, T, i, |T|) == |S| - i
  {
  }

  /** Matching characters are kept at no cost (one unfolding). */
  lemma MatchIsFree(S: string, T: string, i: nat, j: nat)
    requires i < |S| && j < |T| && S[i] == T[j]
    ensures Distance(S, T, i, j) == Distance(S, T, i + 1, j + 1)
  {
  }

  /** A mismatch costs one deletion or one insertion, and nothing else (one unfolding). */
  lemma MismatchCostsOne(S: string, T: string, i: nat, j: nat)
    requires i < |S| && j < |T| && S[i] != T[j]
    ensures Distance(S, T, i, j) == Min(1 + Distance(S, T, i + 1, j), 1 + Distance(S, T, i, j + 1))
  {
  }

  /** The result depends only on the suffixes S[i..] and T[j..]. */
  lemma {:induction false} DistanceShift(S: string, T: string, i: nat, j: nat, k: nat, l: nat)
    requires k <= i <= |S| && l <= j <= |T|
    ensures Distance(S, T, i, j) == Distance(S[k..], T[l..], i - k, j - l)
    decreases (|S| - i) + (|T| - j)
  {
    var S', T' := S[k..], T[l..];
    assert |S'| == |S| - k && |T'| == |T| - l;
    if i < |S| && j < |T| {
      assert S'[i - k] == S[i] && T'[j - l] == T[j];
      if S[i] == T[j] {
        DistanceShift(S, T, i + 1, j + 1, k, l);
      } else {
        DistanceShift(S, T, i + 1, j, k, l);
        DistanceShift(S, T, i, j + 1, k, l);
      }
    }
  }

  /** `Distance` at (i, j) is `EditDistance` of the two suffixes. */
  lemma SuffixMeaning(S: string, T: string, i: nat, j: nat)
    requires i <= |S| && j <= |T|
    ensures Distance(S, T, i, j) == EditDistance(S[i..], T[j..])
  {
    DistanceShift(S, T, i, j, i, j);
  }

  /** The suffix recurrence restated on whole strings: first characters. */
  lemma HeadStep(x: string, y: string)
    requires x != [] && y != []
    ensures EditDistance(x, y) ==
      if x[0] == y[0] then EditDistance(x[1..], y[1..])
      else 1 + Min(EditDistance(x[1..], y), EditDistance(x, y[1..]))
  {
    assert x[0..] == x && y[0..] == y;
    DistanceShift(x, y, 1, 1, 1, 1);
    DistanceShift(x, y, 1, 0, 1, 0);
    DistanceShift(x, y, 0, 1, 0, 1);
  }

  /** Insertion and deletion are mirror images: the distance is symmetric. */
  lemma {:induction false} DistanceSymmetric(S: string, T: string, i: nat, j: nat)
    requires i <= |S| && j <= |T|
    ensures Distance(S, T, i, j) == Distance(T, S, j, i)
    decreases (|S| - i) + (|T| - j)
  {
    if i < |S| && j < |T| {
      if S[i] == T[j] {
        DistanceSymmetric(S, T, i + 1, j + 1);
      } else {
        DistanceSymmetric(S, T, i + 1, j);
        DistanceSymmetric(S, T, i, j + 1);
      }
    }
  }

  lemma EditDistanceSymmetric(S: string, T: string)
    ensures EditDistance(S, T) == EditDistance(T, S)
  {
    DistanceSymmetric(S, T, 0, 0);
  }

  /** The distance is zero exactly when the two suffixes are equal. */
  lemma {:induction false} ZeroIffEqual(S: string, T: string, i: nat, j: nat)
    requires i <= |S| && j <= |T|
    ensures Distance(S, T, i, j) == 0 <==> S[i..] == T[j..]
    decreases (|S| - i) + (|T| - j)
  {
    if i < |S| && j < |T| {
      if S[i] == T[j] {
        ZeroIffEqual(S, T, i + 1, j + 1);
        assert S[i..] == [S[i]] + S[i + 1..];
        assert T[j..] == [T[j]] + T[j + 1..];
        if S[i..] == T[j..] {
          assert S[i + 1..] == S[i..][1..] == T[j..][1..] == T[j + 1..];
        }
      } else {
        assert S[i..][0] != T[j..][0];
      }
    }
  }

  /**
   * The distance reaches its upper bound |S[i..]| + |T[j..]| exactly
   * when the two suffixes have no character in common: with no
   * substitution, unrelated characters are each deleted or inserted.
   */
  lemma MaximalIffDisjoint(S: string, T: string, i: nat, j: nat)
    requires i <= |S| && j <= |T|
    ensures Distance(S, T, i, j) == (|S| - i) + (|T| - j) <==>
      forall a, b :: i <= a < |S| && j <= b < |T| ==> S[a] != T[b]
  {
    if forall a, b :: i <= a < |S| && j <= b < |T| ==> S[a] != T[b] {
      DisjointIsMaximal(S, T, i, j);
    } else {
      var a, b :| i <= a < |S| && j <= b < |T| && S[a] == T[b];
      CommonCharacterSaves(S, T, i, j, a, b);
    }
  }

  lemma {:induction false} DisjointIsMaximal(S: string, T: string, i: nat, j: nat)
    requires i <= |S| && j <= |T|
    requires forall a, b :: i <= a < |S| && j <= b < |T| ==> S[a] != T[b]
    ensures Distance(S, T, i, j) == (|S| - i) + (|T| - j)
    decreases (|S| - i) + (|T| - j)
  {
    if i < |S| && j < |T| {
      DisjointIsMaximal(S, T, i + 1, j);
      DisjointIsMaximal(S, T, i, j + 1);
    }
  }

  /** One common character S[a] == T[b] can be kept, saving two edits. */
  lemma {:induction false} CommonCharacterSaves(S: string, T: string, i: nat, j: nat, a: nat, b: nat)
    requires i <= a < |S| && j <= b < |T| && S[a] == T[b]
    ensures Distance(S, T, i, j) <= (|S| - i) + (|T| - j) - 2
    decreases (|S| - i) + (|T| - j)
  {
    if S[i] != T[j] {
      if i < a {
        CommonCharacterSaves(S, T, i + 1, j, a, b);
      } else {
        CommonCharacterSaves(S, T, i, j + 1, a, b);
      }
    }
  }

  /**
   * Removing the first character of the target, or adding one in front of
   * the source, raises the distance by at most one. The two facts are
   * proved together, each using the other on smaller strings.
   */
  lemma {:induction false} DropTargetBound(x: string, y: string)
    requires y != []
    ensures EditDistance(x, y) <= 1 + EditDistance(x, y[1..])
    decreases |x| + |y|, 0
  {
    if x != [] {
      HeadStep(x, y);
      if x[0] == y[0] {
        AddSourceBound(x, y[1..]);
      }
    }
  }

  lemma {:induction false} AddSourceBound(x: string, y: string)
    requires x != []
    ensures EditDistance(x[1..], y) <= 1 + EditDistance(x, y)
    decreases |x| + |y|, 1
  {
    if y != [] {
      HeadStep(x, y);
      DropTargetBound(x[1..], y);
      if x[0] != y[0] {
        AddSourceBound(x, y[1..]);
      }
    }
  }

  /** The mirror images of the two bounds above, by symmetry. */
  lemma DropSourceBound(x: string, y: string)
    requires x != []
    ensures EditDistance(x, y) <= 1 + EditDistance(x[1..], y)
  {
    DropTargetBound(y, x);
    EditDistanceSymmetric(x, y);
    EditDistanceSymmetric(x[1..], y);
  }

  lemma AddTargetBound(x: string, y: string)
    requires y != []
    ensures EditDistance(x, y[1..]) <= 1 + EditDistance(x, y)
  {
    AddSourceBound(y, x);
    EditDistanceSymmetric(x, y);
    EditDistanceSymmetric(x, y[1..]);
  }

  /** The worked example in the comment of recursive.cpp. */
  lemma ExampleKeepThenEdit()
    ensures EditDistance("AB", "AC") == 2
  {
  }

  /**
   * With no substitution, turning "kitten" into "sitting" takes five edits
   * (three deletions and two insertions) where Levenshtein's distance
   * would count three.
   */
  lemma ExampleNoSubstitution()
    ensures EditDistance("kitten", "sitting") == 5
    ensures EditDistance("flaw", "lawn") == 2
  {
  }
}
