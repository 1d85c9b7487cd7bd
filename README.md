# Insert/delete edit distance, four ways

This project models the C++ core of a small benchmark of edit-distance
algorithms. Every algorithm computes the same number: the least number of
single-character **deletions and insertions** that turn a string S into a
string T. There is no substitution. Four strategies compute it:

- `editDistanceRecursive` (recursive.cpp) is the plain suffix recurrence
  on positions (i, j). It is modelled as the function `Recursive.Distance`,
  which is the reference for everything else. `Recursive.EditDistance(S, T)`
  is its value at (0, 0).
- `editDistanceMemo` (memo.cpp) is the same recurrence over a
  caller-owned table in which -1 means "not yet computed". It is modelled
  as the recursive method `Memoized.Memo` on an `array2<int>`. The wrapper
  that allocates the table (main.cpp) is `Driver.MemoDistance`.
- `editDistanceDP` (pdinamic.cpp) fills the whole prefix table bottom-up.
  It is modelled as `Tabular.TableDistance`, with nested loops over an
  `array2<int>`. The meaning of a cell is the function `Tabular.Prefix`.
- `editDistanceDPOptimized` (pdopti.cpp) swaps the arguments so that the
  shorter string indexes the row. It then keeps two rolling rows. It is
  modelled as `Rolling.RollingDistance`, with two `array<int>` buffers and
  the whole-row copy `prev = curr`.

The program's driver (main.cpp) compares the strategies and checks a table
of expected values. This part is `Driver`.

The key proof is `Tabular.TailStep`. It shows that the suffix recurrence
(which looks at first characters) also satisfies the prefix recurrence
(which looks at last characters). From this, `Tabular.PrefixIsDistance`
shows that the corner of the table equals the recursive result. The
module `EditScripts` says what the number means. A script of keeps,
deletions and insertions turns x into y. `EditDistance(x, y)` is the least
cost of such a script. The edit-script lemmas also give the triangle
inequality.

Every source file calls this the "Delete-Insert" distance (for example
recursive.cpp:6 and main.cpp:36). Textbook Levenshtein distance also allows
substitution, so there "kitten" to "sitting" costs 3. This code has no
substitution branch (recursive.cpp:41-47), and its own test table expects 5
for ("AB", "XYZ") (main.cpp:101). So "kitten" to "sitting" is 5 here
(`Recursive.ExampleNoSubstitution`).

Lengths and distances are unbounded `nat`/`int`. Strings are `seq<char>`.
Each element of a Dafny string stands for one C++ `char` of the input, that
is, one byte. The two strings compared are the byte sequences the program
compares, not decoded Unicode text.

## Model

| member | source | states |
|---|---|---|
| `Recursive.Distance` | recursive.cpp:16-49 | the suffix recurrence. It terminates because (len(S)-i)+(len(T)-j) decreases. The result is at most (len(S)-i)+(len(T)-j), the cost of deleting everything and inserting everything. It is at least the difference of the two suffix lengths |
| `Recursive.DistanceParity` | recursive.cpp:31-47 | the distance has the parity of (len(S)-i)+(len(T)-j), because each kept character saves one deletion and one insertion |
| `Recursive.EndOfSource` | recursive.cpp:19-22 | at i == len(S) the result is len(T)-j |
| `Recursive.EndOfTarget` | recursive.cpp:25-28 | at j == len(T) with i < len(S) the result is len(S)-i |
| `Recursive.MatchIsFree` | recursive.cpp:31-35 | on S[i] == T[j] the result equals the call at (i+1, j+1), at no cost |
| `Recursive.MismatchCostsOne` | recursive.cpp:36-48 | on S[i] != T[j] the result is min(1 + delete, 1 + insert), with no substitution branch |
| `Recursive.DistanceShift` | recursive.cpp:14-16 | the result at (i, j) depends only on the suffixes: it equals the call on S[k..], T[l..] at the shifted positions |
| `Recursive.SuffixMeaning` | recursive.cpp:14 | Distance(S, T, i, j) is the distance from S[i..] to T[j..] |
| `Recursive.HeadStep` | recursive.cpp:30-47 | the recurrence restated on whole strings through their first characters |
| `Recursive.DistanceSymmetric` | pdopti.cpp:135-138 | Distance(S, T, i, j) == Distance(T, S, j, i): insertions and deletions are mirror images |
| `Recursive.EditDistanceSymmetric` | pdopti.cpp:28-31 | d(S, T) == d(T, S), which is what makes the argument swap correct |
| `Recursive.ZeroIffEqual` | recursive.cpp:31-35 | the distance is 0 if and only if the two suffixes are equal |
| `Recursive.MaximalIffDisjoint` | main.cpp:101-102 | the distance equals len(S[i..])+len(T[j..]) if and only if the suffixes share no character, as the expected values 5 and 6 for strings with no common letter show |
| `Recursive.DisjointIsMaximal` | recursive.cpp:41-47 | with no common character every character is deleted or inserted |
| `Recursive.CommonCharacterSaves` | recursive.cpp:31-35 | a common character S[a] == T[b] lowers the distance to at most the upper bound minus 2 |
| `Recursive.DropTargetBound` | recursive.cpp:43-44 | d(x, y) <= 1 + d(x, y[1..]): one insertion costs at most one |
| `Recursive.AddSourceBound` | recursive.cpp:40-41 | d(x[1..], y) <= 1 + d(x, y) |
| `Recursive.DropSourceBound` | recursive.cpp:40-41 | d(x, y) <= 1 + d(x[1..], y): one deletion costs at most one |
| `Recursive.AddTargetBound` | recursive.cpp:43-44 | d(x, y[1..]) <= 1 + d(x, y) |
| `Recursive.ExampleKeepThenEdit` | recursive.cpp:69-79 | the worked example: d("AB", "AC") == 2 |
| `Recursive.ExampleNoSubstitution` | recursive.cpp:38-47 | without substitution d("kitten", "sitting") == 5 and d("flaw", "lawn") == 2 |
| `Tabular.Prefix` | pdinamic.cpp:9-10 | the prefix recurrence that gives dp[i][j]: dp[0][j] == j, dp[i][0] == i, a match copies the diagonal, and a mismatch takes min(up + 1, left + 1). The value lies between the absolute difference of i and j and i+j |
| `Tabular.PrefixTruncate` | pdinamic.cpp:24 | dp[i][j] reads only S[..i] and T[..j] |
| `Tabular.PrefixSymmetric` | pdinamic.cpp:9-10 | the prefix table is symmetric: dp[i][j] for (S, T) equals dp[j][i] for (T, S), a standalone fact about the prefix recurrence |
| `Tabular.SingleSource` | recursive.cpp:30-47 | from one character a to y: len(y)-1 if a occurs in y, else len(y)+1 |
| `Tabular.SingleTarget` | recursive.cpp:30-47 | from x to one character b: len(x)-1 if b occurs in x, else len(x)+1 |
| `Tabular.TailStep` | pdinamic.cpp:86-93 | the suffix distance satisfies the last-character recurrence of the table |
| `Tabular.PrefixIsDistance` | pdinamic.cpp:70-71 | the corner dp[len(S)][len(T)] equals editDistanceRecursive(S, T, 0, 0) |
| `Tabular.PrefixMeaning` | pdinamic.cpp:9-10 | dp[i][j] is the distance from S[..i] to T[..j] |
| `Tabular.TableDistance` | pdinamic.cpp:18-72 | builds a (len(S)+1)×(len(T)+1) table. Its loop invariants are: first column i, first row j, and every filled cell of a finished row equals Prefix. It returns the recursive distance at (0, 0) |
| `Tabular.ExampleNoCommonCharacter` | pdinamic.cpp:95-122 | the worked example: dp[2][2] == 4 for ("AB", "XY") |
| `Rolling.RollingDistance` | pdopti.cpp:21-84 | swaps the arguments when len(S) > len(T). Both buffers have length min(len(S),len(T))+1. prev starts as 0..m. At the start of row j, prev[k] is cell (j-1, k) of the T-by-S table. curr[0] == j, and a match or mismatch updates curr as in the source. Each row is copied whole into prev. The result is the recursive distance, also when T is empty |
| `Memoized.Memo` | memo.cpp:20-63 | whatever the table holds, the call terminates and stores its result at (i, j). A stored value is returned without touching the table. A computed cell is never overwritten. Only cells (a, b) with a >= i and b >= j are written. On a table that holds only -1 or true suffix distances, the result is Distance(S, T, i, j) and the table keeps that invariant |
| `Driver.MemoDistance` | main.cpp:15-19 | a fresh (len(S)+1)×(len(T)+1) table of -1 meets the memo invariant, so the call at (0, 0) returns the distance |
| `Driver.CompareImplementations` | main.cpp:69-83 | the recursive strategy runs only when both strings have at most 10 characters. Where it runs it agrees with the memoized, tabular and two-row strategies, and those three agree on every input |
| `Driver.SpecificTestsHold` | main.cpp:96-102 | every expected value in specificTests is the insert/delete distance: 2, 2, 1, 1, 5, 6 |
| `Driver.CheckSpecificTests` | main.cpp:104-110 | allCorrect is the conjunction of result == expected over the six cases, and it is true |
| `EditScripts.OptimalScript` | recursive.cpp:5-14 | builds a keep/delete/insert script from S to T by the recurrence's choices. The script turns S into T and costs exactly the computed distance |
| `EditScripts.NoCheaperScript` | recursive.cpp:5-14 | every script that turns x into y costs at least the computed distance |
| `EditScripts.DistanceIsLeastCost` | recursive.cpp:14 | the computed distance is the minimum cost over all scripts from x to y |
| `EditScripts.Compose` | recursive.cpp:5-14 | a script from x to y followed by one from y to z gives a script from x to z that costs at most the sum |
| `EditScripts.TriangleInequality` | recursive.cpp:14 | d(x, z) <= d(x, y) + d(y, z) |

## Left out

- Timing and output in main.cpp: `measureTime`, `chrono` and every `cout`. The first loop of `main` (main.cpp:41-57) only prints the recursive distance for each ordered pair of the four sample strings. The comparison loop (main.cpp:69-83) only prints results. `Driver.CompareImplementations` states that they agree on every input, not just the four listed pairs.
- C++ `int` overflow and the `size_t`-to-`int` conversion of `T.length() - j`. Lengths and distances are unbounded here.
- Running time, recursion depth and stack exhaustion. Nothing counts calls, so the model does not show that each memo cell is computed at most once.
- The memo example in the comment at memo.cpp:87-97: its intermediate values do not follow the code. d("B", "XY") is 3, not 2.
- The `justification` texts of specificTests are kept in `Driver.TestCase` but only printed by the source. They play no part in the pass flag.
- `Rolling.RollingDistance`: the space bound is reported as a ghost out-parameter, the length of each buffer. The model does not measure peak memory.
- Character encoding: the model compares whole elements of a string. A character that UTF-8 writes as several bytes (the experiment scripts read and write UTF-8 text) is one element only if the caller gives the model its bytes one by one. The model does not decode or encode text.
- The Python experiment scripts in experimental/: compiling and running the binaries, reading and writing text and JSON files, downloading and cleaning text, plotting, and floating-point timing. None of them has logic of its own on the distance.
