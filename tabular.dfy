/**
 * The bottom-up table of pdinamic.cpp. Cell (i, j) of the table holds
 * `Prefix(S, T, i, j)`, the insert/delete distance between the prefixes
 * S[..i] and T[..j]. The prefix recurrence looks at the LAST characters,
 * the suffix recurrence of recursive.cpp at the FIRST ones; `TailStep`
 * shows that the suffix distance obeys the prefix recurrence too, which is
 * what makes the table's corner equal to `EditDistance(S, T)`.
 */
module Tabular {
  import opened Recursive

  /** The meaning of dp[i][j]: the prefix recurrence. */
  function Prefix(S: string, T: string, i: nat, j: nat): (r: nat)
    requires i <= |S| && j <= |T|
    ensures r <= i + j
    ensures r >= i - j && r >= j - i
    decreases i + j
  {
    if i == 0 then
      j
    else if j == 0 then
      i
    else if S[i - 1] == T[j - 1] then
      Prefix(S, T, i - 1, j - 1)
    else
      Min(Prefix(S, T, i - 1, j) + 1, Prefix(S, T, i, j - 1) + 1)
  }

  /** Prefix(S, T, i, j) reads nothing of S beyond i nor of T beyond j. */
  lemma {:induction false} PrefixTruncate(S: string, T: string, i: nat, j: nat, a: nat, b: nat)
    requires i <= a <= |S| && j <= b <= |T|
    ensures Prefix(S, T, i, j) == Prefix(S[..a], T[..b], i, j)
    decreases i + j
  {
    if i > 0 && j > 0 {
      assert S[..a][i - 1] == S[i - 1] && T[..b][j - 1] == T[j - 1];
      if S[i - 1] == T[j - 1] {
        PrefixTruncate(S, T, i - 1, j - 1, a, b);
      } else {
        PrefixTruncate(S, T, i - 1, j, a, b);
        PrefixTruncate(S, T, i, j - 1, a, b);
      }
    }
  }

  /** The prefix table is symmetric, as the suffix distance is. */
  lemma {:induction false} PrefixSymmetric(S: string, T: string, i: nat, j: nat)
    requires i <= |S| && j <= |T|
    ensures Prefix(S, T, i, j) == Prefix(T, S, j, i)
    decreases i + j
  {
    if i > 0 && j > 0 {
      if S[i - 1] == T[j - 1] {
        PrefixSymmetric(S, T, i - 1, j - 1);
      } else {
        PrefixSymmetric(S, T, i - 1, j);
        PrefixSymmetric(S, T, i, j - 1);
      }
    }
  }

  /** From one character a to y: keep one copy of a if there is one. */
  lemma {:induction false} SingleSource(a: char, y: string)
    ensures EditDistance([a], y) == if a in y then |y| - 1 else |y| + 1
    decreases |y|
  {
    if y != [] {
      HeadStep([a], y);
      assert [a][1..] == [];
      assert y == [y[0]] + y[1..];
      if a != y[0] {
        SingleSource(a, y[1..]);
      }
    }
  }

  lemma SingleTarget(x: string, b: char)
    ensures EditDistance(x, [b]) == if b in x then |x| - 1 else |x| + 1
  {
    SingleSource(b, x);
    EditDistanceSymmetric(x, [b]);
  }

  /**
   * The suffix distance satisfies the prefix recurrence: on the last
   * characters, a match is free and a mismatch costs one deletion or one
   * insertion.
   */
  lemma {:induction false} TailStep(x: string, y: string)
    requires x != [] && y != []
    ensures EditDistance(x, y) ==
      if x[|x| - 1] == y[|y| - 1] then EditDistance(x[..|x| - 1], y[..|y| - 1])
      else 1 + Min(EditDistance(x[..|x| - 1], y), EditDistance(x, y[..|y| - 1]))
    decreases |x| + |y|
  {
    var xi, yi := x[..|x| - 1], y[..|y| - 1];
    if |x| == 1 {
      assert x == [x[0]] && xi == [];
      assert y == yi + [y[|y| - 1]];
      SingleSource(x[0], y);
      SingleSource(x[0], yi);
    } else if |y| == 1 {
      assert y == [y[0]] && yi == [];
      assert x == xi + [x[|x| - 1]];
      SingleTarget(x, y[0]);
      SingleTarget(xi, y[0]);
    } else {
      var x1, y1 := x[1..], y[1..];
      assert x1[..|x1| - 1] == xi[1..] == x[1..|x| - 1];
      assert y1[..|y1| - 1] == yi[1..] == y[1..|y| - 1];
      assert x1[|x1| - 1] == x[|x| - 1] && y1[|y1| - 1] == y[|y| - 1];
      assert xi[0] == x[0] && yi[0] == y[0];
      HeadStep(x, y);
      HeadStep(xi, yi);
      HeadStep(xi, y);
      HeadStep(x, yi);
      TailStep(x1, y1);
      TailStep(x1, y);
      TailStep(x, y1);
    }
  }

  /** The corner of the prefix table is the suffix distance at (0, 0). */
  lemma {:induction false} PrefixIsDistance(x: string, y: string)
    ensures Prefix(x, y, |x|, |y|) == EditDistance(x, y)
    decreases |x| + |y|
  {
    if x != [] && y != [] {
      var xi, yi := x[..|x| - 1], y[..|y| - 1];
      assert x[..|x|] == x && y[..|y|] == y;
      TailStep(x, y);
      if x[|x| - 1] == y[|y| - 1] {
        PrefixTruncate(x, y, |x| - 1, |y| - 1, |x| - 1, |y| - 1);
        PrefixIsDistance(xi, yi);
      } else {
        PrefixTruncate(x, y, |x| - 1, |y|, |x| - 1, |y|);
        PrefixTruncate(x, y, |x|, |y| - 1, |x|, |y| - 1);
        PrefixIsDistance(xi, y);
        PrefixIsDistance(x, yi);
      }
    }
  }

  /** dp[i][j] is the distance from the prefix S[..i] to the prefix T[..j]. */
  lemma PrefixMeaning(S: string, T: string, i: nat, j: nat)
    requires i <= |S| && j <= |T|
    ensures Prefix(S, T, i, j) == EditDistance(S[..i], T[..j])
  {
    PrefixTruncate(S, T, i, j, i, j);
    PrefixIsDistance(S[..i], T[..j]);
  }

  /** editDistanceDP: fill the (|S|+1) x (|T|+1) table row by row. */
  method TableDistance(S: string, T: string) returns (r: int)
    ensures r == EditDistance(S, T)
  {
    var m, n := |S|, |T|;
    var dp := new int[m + 1, n + 1];
    // first column: i deletions
    for i := 0 to m + 1
      invariant forall a :: 0 <= a < i ==> dp[a, 0] == a
    {
      dp[i, 0] := i;
    }
    // first row: j insertions
    for j := 0 to n + 1
      invariant forall a :: 0 <= a <= m ==> dp[a, 0] == a
      invariant forall b :: 0 <= b < j ==> dp[0, b] == b
    {
      dp[0, j] := j;
    }
    for i := 1 to m + 1
      invariant forall a, b {:trigger dp[a, b]} :: 0 <= a < i && 0 <= b <= n ==> dp[a, b] == Prefix(S, T, a, b)
      invariant forall a :: i <= a <= m ==> dp[a, 0] == a
    {
      for j := 1 to n + 1
        invariant forall a, b {:trigger dp[a, b]} :: 0 <= a < i && 0 <= b <= n ==> dp[a, b] == Prefix(S, T, a, b)
        invariant forall b {:trigger dp[i, b]} :: 0 <= b < j ==> dp[i, b] == Prefix(S, T, i, b)
        invariant forall a :: i < a <= m ==> dp[a, 0] == a
      {
        if S[i - 1] == T[j - 1] {
          dp[i, j] := dp[i - 1, j - 1];
        } else {
          var deleteOption := dp[i - 1, j] + 1;
          var insertOption := dp[i, j - 1] + 1;
          dp[i, j] := Min(deleteOption, insertOption);
        }
        assert dp[i, j] == Prefix(S, T, i, j);
      }
    }
    r := dp[m, n];
    PrefixIsDistance(S, T);
  }

  /** The worked example in the comment of pdinamic.cpp. */
  lemma ExampleNoCommonCharacter()
    ensures Prefix("AB", "XY", 2, 2) == 4
    ensures EditDistance("AB", "XY") == 4
  {
    PrefixIsDistance("AB", "XY");
  }
}
