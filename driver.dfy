/**
 * The driver of main.cpp: the wrapper that sets up the memo table, the
 * side-by-side run of the four strategies, and the table of expected
 * results with its pass flag.
 */
module Driver {
  import opened Recursive
  import opened Memoized
  import opened Tabular
  import opened Rolling

  datatype Option<T> = None | Some(value: T)

  /**
   * editDistanceMemoWrapper: a fresh (|S|+1) x (|T|+1) table of -1 is
   * consistent, so the memoized call at (0, 0) yields the distance.
   */
  method MemoDistance(S: string, T: string) returns (r: int)
    ensures r == EditDistance(S, T)
  {
    var memo := new int[|S| + 1, |T| + 1]((a, b) => Uncomputed);
    r := Memo(S, T, 0, 0, memo);
  }

  /**
   * One case of the comparison in main: all four strategies agree. The
   * exponential one is only run when both strings have at most 10
   * characters.
   */
  method CompareImplementations(S: string, T: string)
    returns (recursive: Option<int>, memoized: int, tabular: int, optimized: int)
    ensures recursive.Some? <==> |S| <= 10 && |T| <= 10
    ensures recursive.Some? ==> recursive.value == memoized
    ensures memoized == tabular == optimized == EditDistance(S, T)
  {
    recursive := None;
    if |S| <= 10 && |T| <= 10 {
      recursive := Some(EditDistance(S, T));
    }
    memoized := MemoDistance(S, T);
    tabular := TableDistance(S, T);
    ghost var rowLength;
    optimized, rowLength := RollingDistance(S, T);
  }

  /** One row of specificTests; the justification is only printed. */
  datatype TestCase = TestCase(s: string, t: string, expected: int, justification: string)

  const SpecificTests: seq<TestCase> := [
    TestCase("", "AB", 2, "2 inserts"),
    TestCase("AB", "", 2, "2 deletes"),
    TestCase("AB", "ABC", 1, "1 insert"),
    TestCase("ABC", "AB", 1, "1 delete"),
    TestCase("AB", "XYZ", 5, "2 deletes + 3 inserts"),
    TestCase("ABC", "XYZ", 6, "3 deletes + 3 inserts")
  ]

  predicate Passes(test: TestCase)
  {
    EditDistance(test.s, test.t) == test.expected
  }

  /** Every expected value in specificTests is the insert/delete distance. */
  lemma SpecificTestsHold()
    ensures forall k :: 0 <= k < |SpecificTests| ==> Passes(SpecificTests[k])
  {
  }

  /** The loop that accumulates allCorrect over specificTests. */
  method CheckSpecificTests() returns (allCorrect: bool)
    ensures allCorrect <==> forall k :: 0 <= k < |SpecificTests| ==> Passes(SpecificTests[k])
    ensures allCorrect
  {
    allCorrect := true;
    for k := 0 to |SpecificTests|
      invariant allCorrect <==> forall c :: 0 <= c < k ==> Passes(SpecificTests[c])
    {
      var test := SpecificTests[k];
      var result := TableDistance(test.s, test.t);
      var correct := result == test.expected;
      allCorrect := allCorrect && correct;
    }
    SpecificTestsHold();
  }
}
