/**
 * The top-down recurrence of memo.cpp over a caller-owned table. Cell
 * (a, b) holds either the sentinel -1 ("not yet computed") or the suffix
 * distance `Distance(S, T, a, b)`.
 */
module Memoized {
  import opened Recursive

  /** The "not yet computed" marker. */
  const Uncomputed: int := -1

  /** The table has one cell per pair of suffixes. */
  predicate Sized(S: string, T: string, memo: array2<int>)
  {
    memo.Length0 == |S| + 1 && memo.Length1 == |T| + 1
  }

  /** Every cell is either uncomputed or holds the true suffix distance. */
  ghost predicate Consistent(S: string, T: string, memo: array2<int>)
    reads memo
  {
    Sized(S, T, memo) &&
    forall a: nat, b: nat {:trigger memo[a, b]} :: a <= |S| && b <= |T| ==>
      memo[a, b] == Uncomputed || memo[a, b] == Distance(S, T, a, b)
  }

  /**
   * editDistanceMemo. Whatever the table holds, the call terminates,
   * returns a stored value unchanged, stores its result at (i, j), never
   * overwrites a computed cell and writes only cells (a, b) with a >= i
   * and b >= j. On a consistent table it returns the suffix distance and
   * leaves the table consistent.
   */
  method Memo(S: string, T: string, i: nat, j: nat, memo: array2<int>) returns (r: int)
    requires i <= |S| && j <= |T|
    requires Sized(S, T, memo)
    modifies memo
    ensures memo[i, j] == r
    ensures old(memo[i, j]) != Uncomputed ==> r == old(memo[i, j]) && unchanged(memo)
    ensures forall a, b :: 0 <= a <= |S| && 0 <= b <= |T| && old(memo[a, b]) != Uncomputed ==>
      memo[a, b] == old(memo[a, b])
    ensures forall a, b :: 0 <= a <= |S| && 0 <= b <= |T| && (a < i || b < j) ==>
      memo[a, b] == old(memo[a, b])
    ensures old(Consistent(S, T, memo)) ==> Consistent(S, T, memo) && r == Distance(S, T, i, j)
    decreases (|S| - i) + (|T| - j)
  {
    if memo[i, j] != Uncomputed {
      return memo[i, j];
    }
    var result: int;
    if i == |S| {
      result := |T| - j;
    } else if j == |T| {
      result := |S| - i;
    } else if S[i] == T[j] {
      result := Memo(S, T, i + 1, j + 1, memo);
    } else {
      var deleteOption := Memo(S, T, i + 1, j, memo);
      deleteOption := 1 + deleteOption;
      var insertOption := Memo(S, T, i, j + 1, memo);
      insertOption := 1 + insertOption;
      result := Min(deleteOption, insertOption);
    }
    memo[i, j] := result;
    r := result;
  }
}
