/**
 * The two-row version of the table, pdopti.cpp. T indexes the rows and the
 * shorter S the columns, so buffer cell k of row j stands for table cell
 * dp[j][k] = `Prefix(T, S, j, k)`, the distance from T[..j] to S[..k].
 */
module Rolling {
  import opened Recursive
  import opened Tabular

  /**
   * editDistanceDPOptimized. When S is the longer string the call is
   * repeated with the arguments swapped, which is sound because the
   * distance is symmetric. `rowLength` is the length of each of the two
   * buffers the computation allocates.
   */
  method RollingDistance(S: string, T: string) returns (r: int, ghost rowLength: nat)
    ensures r == EditDistance(S, T)
    ensures rowLength == Min(|S|, |T|) + 1
    decreases if |S| > |T| then 1 else 0
  {
    var m, n := |S|, |T|;
    if m > n {
      r, rowLength := RollingDistance(T, S);
      EditDistanceSymmetric(T, S);
      return;
    }
    // now m <= n
    var prev := new int[m + 1];
    var curr := new int[m + 1];
    rowLength := prev.Length;
    // row 0: turning the empty prefix of T into S[..k] takes k insertions
    for k := 0 to m + 1
      invariant forall c :: 0 <= c < k ==> prev[c] == c
    {
      prev[k] := k;
    }
    for j := 1 to n + 1
      invariant forall c {:trigger prev[c]} :: 0 <= c <= m ==> prev[c] == Prefix(T, S, j - 1, c)
    {
      curr[0] := j;
      for k := 1 to m + 1
        invariant curr[0] == j
        invariant forall c {:trigger curr[c]} :: 0 <= c < k ==> curr[c] == Prefix(T, S, j, c)
        invariant forall c {:trigger prev[c]} :: 0 <= c <= m ==> prev[c] == Prefix(T, S, j - 1, c)
      {
        if T[j - 1] == S[k - 1] {
          curr[k] := prev[k - 1];
        } else {
          var deleteOption := prev[k] + 1;
          var insertOption := curr[k - 1] + 1;
          curr[k] := Min(deleteOption, insertOption);
        }
        assert curr[k] == Prefix(T, S, j, k);
      }
      // prev = curr copies the whole row
      forall c | 0 <= c <= m {
        prev[c] := curr[c];
      }
    }
    r := prev[m];
    PrefixIsDistance(T, S);
    EditDistanceSymmetric(T, S);
  }
}
