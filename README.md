# N-Queens solver: verified model

This project models the placement logic of a small N-Queens tool. The tool puts n queens on
an n x n board so that no two share a row, a column or a diagonal. In the tool, the logic is
wrapped in a command-line loop and a PostgreSQL cache. The model has five modules:

- `Board` (board.dfy): what a placement is. Two queens are `Safe` when they differ in row,
  column and |Δrow| vs |Δcol|. `IsPlacement(qs, lo, n)` means n queens whose rows and
  columns are each a permutation of lo .. lo + n - 1 and that pairwise do not attack. It also
  holds the pigeonhole lemma `PermutationFromRange`.
- `ExplicitSolution` (explicit_solution.dfy): `getExplicitSolution`, the closed-form
  construction of Hoffman, Loessi & Moore and Bernhardsson. It starts from a list of n
  `(0, 0)` placeholders and overwrites slots `i - 1` and `i - 1 + n / 2` for
  i = 1 .. n / 2, using one of two formulas chosen by `n % 6`. Also `getFirstSolution`,
  which handles odd n by solving n - 1 and appending the corner queen `(n, n)`. These pairs
  are (row, column), counted from 1.
- `AllSolutions` (all_solutions.dfy): `getAllSolutions` as a constraint problem. There is
  one variable per column 0 .. n - 1 with domain 0 .. n - 1, and one binary constraint per
  column pair col1 < col2. The constraints are posted by a nested loop
  (`ConstraintScopes`). The search, which the tool hands to the python-constraint library, is
  a backtracking method with used-row, r - c and r + c conflict sets. It is proved to return
  exactly the solution set, with no duplicates. Results are converted to (column, row)
  pairs counted from 0.
- `SolutionCounts` (solution_counts.dfy): the `N_SOLUTIONS` table, plus the count check of the
  test suite for the board sizes that case analysis can settle.
- `SolutionCache` (solution_cache.dfy): the pure part of `saveSolution` and
  `getCachedSolution`. It covers one record `(id, N, row, column)` per queen, the selection
  of the rows with a given N, and the choice of the smallest id. The table is an
  append-only in-memory sequence.

test_allSolutions_6-12.py repeats getAllSolutions line for line (its lines 1-22), so the
`AllSolutions` members model both copies.

Modelling choices:

- Python's `//` and `%` round towards minus infinity, while Dafny's `/` and `%` are
  Euclidean. The two agree for positive divisors, and every divisor the modelled code
  evaluates is positive: 2, 6, and n inside the loop of the branch where `n % 6 == 2`. A
  negative size such as -4 also takes that branch (`-4 % 6 == 2` in both languages), but
  the loop runs only when `n // 2 >= 1`, so the modulo by n is only evaluated for n >= 2.
  So `n // 2` is `n / 2`, and so on.
- In the `n % 6 == 2` branch, the column is `1 + x % n` with `x = 2 * (i - 1) + n / 2 - 1`.
  The specification functions `FirstHalfQueen` and `SecondHalfQueen` write this modulo out
  as `WrappedColumn`: x lies in 0 .. 2n - 1, so the modulo subtracts n at most once. The
  loop method `FillWrapped` keeps the literal `% n` of the code.
  `WrappedColumnIsModulo` proves that the two agree.
- `getExplicitSolution` is modelled for every integer n:
  - for odd n, which the tool never passes, the last slot keeps its `(0, 0)`;
  - for negative n, which reaches it unchecked from the prompt through getFirstSolution,
    the list is empty (`[(0,0)] * n` is `[]`);
  - for n = 2, which getFirstSolution(2) and getFirstSolution(3) both request, the result
    is two queens on one diagonal.
- getAllSolutions for n <= 0 has no variables. The model answers with the single empty
  assignment, which matches `N_SOLUTIONS[0] == 1`. What the library returns for a problem
  with no variables is not part of this model.
- Python lists that the code builds with `append` are sequences that the methods reassign.
  The preallocated list of getExplicitSolution is an `array` that the fill loops write by
  index.

## Model

| member | source | states |
|---|---|---|
| ExplicitSolution.GetExplicitSolution | setup.py:10-34 | returns the list `Explicit(n)`: n entries for n >= 0 (none for n < 0); for every even n >= 4 the result is a placement on rows and columns 1 .. n |
| ExplicitSolution.FillRegular | setup.py:26-29 | the `n % 6 != 2` loop leaves the preallocated array equal to `Explicit(n)` |
| ExplicitSolution.FillWrapped | setup.py:30-33 | the `n % 6 == 2` loop, with the code's own `% n`, leaves the preallocated array equal to `Explicit(n)` |
| ExplicitSolution.WrappedColumnIsModulo | setup.py:32-33 | for n = 2m and 1 <= i <= m, `1 + x % n` and `n - x % n` equal the column without modulo and its mirror `n + 1 -` that column |
| ExplicitSolution.EvenFillsEverySlot | setup.py:24-33 | for even n >= 0 the list has n entries and no slot keeps the `(0, 0)` placeholder |
| ExplicitSolution.OddLeavesLastSlot | setup.py:24-33 | for odd n the last slot stays `(0, 0)` and the other slots lie on the board 1 .. n |
| ExplicitSolution.RegularShape | setup.py:26-29 | for even n with `n % 6 != 2`, slot k has row k + 1; columns are 2, 4, .., n then 1, 3, .., n - 1; rows and columns are permutations of 1 .. n |
| ExplicitSolution.WrappedSlot | setup.py:30-33 | for n = 2m with `n % 6 == 2`, the first m slots are `(i, WrappedColumn(m, i))` and the second m slots are their 180-degree rotations |
| ExplicitSolution.WrappedShape | setup.py:30-33 | for `n % 6 == 2` every coordinate lies in 1 .. n, rows are 1 .. n/2 followed by n down to n/2 + 1, and rows and columns are permutations of 1 .. n |
| ExplicitSolution.RegularPairSafe | setup.py:26-29 | for even n >= 4 with `n % 6 != 2`, no two slots attack each other |
| ExplicitSolution.WrappedPairSafe | setup.py:30-33 | for n >= 8 with `n % 6 == 2`, no two slots attack each other |
| ExplicitSolution.OffMainDiagonal | setup.py:24-33 | for even n >= 4 no queen has row == column |
| ExplicitSolution.ExplicitIsPlacement | setup.py:10-34 | the guarantee the cited constructions give: for every even n >= 4 the list is a placement, and it leaves the main diagonal free |
| ExplicitSolution.GetFirstSolution | setup.py:36-47 | even n: the explicit solution; odd n: the explicit solution for n - 1 followed by `(n, n)`; length n for n >= 0; a placement for n = 1 and every n >= 4; for n = 3 the attacking `[(1,1),(2,2),(3,3)]` |
| ExplicitSolution.OddExtensionIsPlacement | setup.py:42-47 | for n = 1 and every odd n >= 5, adding `(n, n)` to the (n - 1)-solution gives a placement |
| ExplicitSolution.SmallBoards | setup.py:24-47 | n = 0 gives `[]`; n = 2 gives `[(1,1),(2,2)]`, which attacks; appending `(3,3)` gives the n = 3 result |
| AllSolutions.ConstraintScopes | setup.py:60-65 | the nested loop posts a constraint on exactly the column pairs `0 <= col1 < col2 < n`, each once and in loop order |
| AllSolutions.PostedConstraintsDefineSolutions | setup.py:57-65 | an in-domain assignment satisfies every posted constraint exactly when it is a solution |
| AllSolutions.SolutionIffPlacement | setup.py:57-65 | a row assignment satisfies the constraint problem exactly when its queens form a placement on 0 .. n - 1 |
| AllSolutions.FreeRowKeepsConsistent | setup.py:63-65 | a row outside the three conflict sets keeps the partial assignment consistent |
| AllSolutions.BlockedRowHasNoSolution | setup.py:63-65 | a row inside one of the conflict sets appears in no solution extending the partial assignment |
| AllSolutions.Extend | setup.py:66 | the backtracking step returns exactly the solutions extending the partial assignment, without duplicates |
| AllSolutions.Solve | setup.py:66 | returns exactly the solutions of the constraint problem, without duplicates |
| AllSolutions.PairsRoundTrip | setup.py:68-69 | converting an assignment to (column, row) pairs is undone by reading back the rows, and pair c is for column c |
| AllSolutions.GetAllSolutions | setup.py:49-70 | posts the constraints with ConstraintScopes; the result lists every solution, as (column, row) pairs, exactly once and nothing else (n < 0 behaves as n = 0) |
| AllSolutions.ListingsHaveEqualLength | test_allSolutions_6-12.py:30-32 | any two complete duplicate-free listings have the same length, so the count the test checks depends only on n |
| SolutionCounts.SmallSolutions | setup.py:57-65 | the solutions for n = 0 .. 4: the empty assignment, `[0]`, none for 2 and 3, and `[1,3,0,2]`, `[2,0,3,1]` for 4 |
| SolutionCounts.SmallBoardCounts | test_allSolutions_6-12.py:24-32 | for n = 0 .. 4 every complete duplicate-free listing has `N_SOLUTIONS[n]` entries; for n = 0 and n = 1 the listing is fixed |
| SolutionCache.RecordsRoundTrip | setup.py:119-124 | every record saveSolution builds has N = the placement's length and id = ix, and reading back that id gives the placement in order |
| SolutionCache.RecordsFor | setup.py:133 | a record is selected exactly when it is in the table and has the requested N |
| SolutionCache.MinId | setup.py:136 | the chosen id belongs to a selected record and is no larger than any other |
| SolutionCache.CachedSolution | setup.py:126-138 | the lookup is empty exactly when no record has the requested N |
| SolutionCache.SaveThenLookup | setup.py:111-138 | saving a placement for a size with no records, then looking that size up, returns the placement |
| SolutionCache.LaterSaveKeepsLookup | setup.py:111-138 | when ids only grow, a later save leaves the lookup for an already cached size, and for every other size, unchanged |

## Left out

- Database I/O: `initDB`, the sqlalchemy engine, the connection and query execution
  (setup.py:97-108, 124, 133). The table is an in-memory append-only sequence.
- SolutionCache.CachedSolution: the order of the rows `fetchall` returns is unspecified by
  SQL. The model reads the table in insertion order, and the returned queens follow it.
- The interactive loop (setup.py:150-185), because it is console I/O: `input()`, the `ix`
  counter, `KeyboardInterrupt`, and the `solution[0]` access that fails when n = 2 or 3
  has no solution. `LaterSaveKeepsLookup` states as a precondition the growing-id property
  the counter provides within one run of the program. The counter restarts at 1 at every
  start (setup.py:151) while the table persists, so across runs the property can fail.
- `printSol` and `printSolution` (setup.py:72-94): standard output and plotting.
- AllSolutions.GetAllSolutions: python-constraint's search order and dictionary order are
  not visible. The contract fixes the set of solutions and their uniqueness, not the order of
  the solutions. Pairs inside one solution are listed by column.
- AllSolutions.GetAllSolutions: for n <= 0 the model returns the one empty assignment. The
  library's behaviour for a problem with no variables is not part of this model.
- SolutionCounts.SmallBoardCounts: proves the count only for n = 0 .. 4. The test's
  sizes 6 .. 11 and the larger `N_SOLUTIONS` entries are enumeration results that the model
  does not reproduce, because case analysis at those sizes is beyond what the verifier can
  do.
