/** The exhaustive solver. getAllSolutions states N-Queens as a constraint problem: one
    variable per column 0 .. n - 1, each ranging over the rows 0 .. n - 1, and for every pair
    of columns col1 < col2 the constraint that the two rows differ and do not differ by
    col2 - col1. The search itself is done by a library; here it is a depth-first
    backtracking search that keeps three conflict sets (occupied rows, occupied
    row - column diagonals and occupied row + column diagonals) and is proved to return
    every solution exactly once. A solution is the row chosen for each column; the
    function's output lists it as (column, row) pairs counted from 0. */
module AllSolutions {
  import opened Board

  /** The binary constraint posted for columns col1 < col2. */
  predicate Compatible(row1: int, row2: int, col1: int, col2: int) {
    Abs(row1 - row2) != Abs(col1 - col2) && row1 != row2
  }

  /** Every variable takes a value of its domain 0 .. n - 1. */
  predicate InDomain(n: int, rows: seq<int>) {
    forall c :: 0 <= c < |rows| ==> 0 <= rows[c] < n
  }

  /** Every posted constraint holds. */
  predicate Consistent(rows: seq<int>) {
    forall c1, c2 :: 0 <= c1 < c2 < |rows| ==> Compatible(rows[c1], rows[c2], c1, c2)
  }

  /** rows assigns one row to each of the n columns and satisfies the problem. */
  predicate IsSolution(n: int, rows: seq<int>) {
    |rows| == n && InDomain(n, rows) && Consistent(rows)
  }

  /** p comes before q in lexicographic order. */
  predicate LexLess(p: (int, int), q: (int, int)) {
    p.0 < q.0 || (p.0 == q.0 && p.1 < q.1)
  }

  predicate Increasing(ps: seq<(int, int)>) {
    forall a, b :: 0 <= a < b < |ps| ==> LexLess(ps[a], ps[b])
  }

  /** The nested loop that posts one constraint per column pair: the scopes it posts are
      exactly the pairs col1 < col2, each once, in lexicographic order. */
  method ConstraintScopes(n: int) returns (scopes: seq<(int, int)>)
    ensures forall p :: p in scopes <==> 0 <= p.0 < p.1 < n
    ensures Increasing(scopes)
  {
    scopes := [];
    var col1 := 0;
    while col1 < n
      invariant 0 <= col1 <= (if n < 0 then 0 else n)
      invariant forall p :: p in scopes <==> 0 <= p.0 < col1 && p.0 < p.1 < n
      invariant Increasing(scopes)
      invariant forall a :: 0 <= a < |scopes| ==> scopes[a].0 < col1
    {
      var col2 := 0;
      while col2 < n
        invariant 0 <= col2 <= n
        invariant forall p :: p in scopes <==> (0 <= p.0 < col1 && p.0 < p.1 < n) || (p.0 == col1 && col1 < p.1 < col2)
        invariant Increasing(scopes)
        invariant forall a :: 0 <= a < |scopes| ==> LexLess(scopes[a], (col1, col2))
      {
        if col1 < col2 {
          IncreasingAppend(scopes, (col1, col2));
          scopes := scopes + [(col1, col2)];
        }
        col2 := col2 + 1;
      }
      col1 := col1 + 1;
    }
  }

  lemma IncreasingAppend(ps: seq<(int, int)>, q: (int, int))
    requires Increasing(ps) && forall a :: 0 <= a < |ps| ==> LexLess(ps[a], q)
    ensures Increasing(ps + [q])
  {
  }

  /** Holding every constraint of a complete list of scopes is the same as IsSolution's
      consistency: the posted problem and the predicate agree. */
  lemma PostedConstraintsDefineSolutions(n: int, scopes: seq<(int, int)>, rows: seq<int>)
    requires forall p :: p in scopes <==> 0 <= p.0 < p.1 < n
    requires |rows| == n && InDomain(n, rows)
    ensures (forall p :: p in scopes ==> Compatible(rows[p.0], rows[p.1], p.0, p.1)) <==> IsSolution(n, rows)
  {
    if forall p :: p in scopes ==> Compatible(rows[p.0], rows[p.1], p.0, p.1) {
      forall c1, c2 | 0 <= c1 < c2 < |rows| ensures Compatible(rows[c1], rows[c2], c1, c2) {
        assert (c1, c2) in scopes;
      }
    }
  }

  // ---------------------------------------------------------------------------------
  // Conflict sets

  function UsedRows(partial: seq<int>): set<int> {
    set c | 0 <= c < |partial| :: partial[c]
  }

  function UsedDiffs(partial: seq<int>): set<int> {
    set c | 0 <= c < |partial| :: partial[c] - c
  }

  function UsedSums(partial: seq<int>): set<int> {
    set c | 0 <= c < |partial| :: partial[c] + c
  }

  /** Placing one more queen adds its row and its two diagonals to the conflict sets. */
  lemma ConflictSetsGrow(partial: seq<int>, row: int)
    ensures UsedRows(partial + [row]) == UsedRows(partial) + {row}
    ensures UsedDiffs(partial + [row]) == UsedDiffs(partial) + {row - |partial|}
    ensures UsedSums(partial + [row]) == UsedSums(partial) + {row + |partial|}
  {
    var next := partial + [row];
    assert forall c :: 0 <= c < |partial| ==> next[c] == partial[c];
    assert next[|partial|] == row;
  }

  /** A candidate row that hits none of the three conflict sets keeps the partial
      assignment consistent. */
  lemma FreeRowKeepsConsistent(partial: seq<int>, row: int)
    requires Consistent(partial)
    requires row !in UsedRows(partial) && row - |partial| !in UsedDiffs(partial) && row + |partial| !in UsedSums(partial)
    ensures Consistent(partial + [row])
  {
    var next, col := partial + [row], |partial|;
    forall c1, c2 | 0 <= c1 < c2 < |next| ensures Compatible(next[c1], next[c2], c1, c2) {
      if c2 == col {
        assert next[c1] == partial[c1];
        assert partial[c1] in UsedRows(partial);
        assert partial[c1] - c1 in UsedDiffs(partial);
        assert partial[c1] + c1 in UsedSums(partial);
      } else {
        assert next[c1] == partial[c1] && next[c2] == partial[c2];
      }
    }
  }

  /** A candidate row in one of the conflict sets is attacked by a queen already placed,
      so no solution extends the partial assignment with it. */
  lemma BlockedRowHasNoSolution(n: int, partial: seq<int>, row: int, s: seq<int>)
    requires row in UsedRows(partial) || row - |partial| in UsedDiffs(partial) || row + |partial| in UsedSums(partial)
    requires IsSolution(n, s) && partial <= s && |partial| < |s|
    ensures s[|partial|] != row
  {
    var col := |partial|;
    var c :| 0 <= c < col && (partial[c] == row || partial[c] - c == row - col || partial[c] + c == row + col);
    assert s[c] == partial[c];
    assert Compatible(s[c], s[col], c, col);
  }

  lemma ExtendPrefix(partial: seq<int>, s: seq<int>)
    requires partial <= s && |partial| < |s|
    ensures partial + [s[|partial|]] <= s
  {
    assert s[..|partial| + 1] == s[..|partial|] + [s[|partial|]];
  }

  lemma ShortenPrefix(partial: seq<int>, row: int, s: seq<int>)
    requires partial + [row] <= s
    ensures partial <= s && |partial| < |s| && s[|partial|] == row
  {
    assert s[..|partial|] == (partial + [row])[..|partial|];
  }

  lemma DistinctConcat<T>(xs: seq<T>, ys: seq<T>)
    requires Distinct(xs) && Distinct(ys)
    requires forall a, b :: 0 <= a < |xs| && 0 <= b < |ys| ==> xs[a] != ys[b]
    ensures Distinct(xs + ys)
  {
    var zs := xs + ys;
    forall a, b | 0 <= a < b < |zs| ensures zs[a] != zs[b] {
      if b < |xs| {
        assert zs[a] == xs[a] && zs[b] == xs[b];
      } else if a < |xs| {
        assert zs[a] == xs[a] && zs[b] == ys[b - |xs|];
      } else {
        assert zs[a] == ys[a - |xs|] && zs[b] == ys[b - |xs|];
      }
    }
  }

  // ---------------------------------------------------------------------------------
  // Backtracking search

  /** Depth-first search below a consistent partial assignment of the first |partial|
      columns: returns, without duplicates, exactly the solutions that extend it. */
  method Extend(n: nat, partial: seq<int>, usedRows: set<int>, usedDiffs: set<int>, usedSums: set<int>)
    returns (found: seq<seq<int>>)
    requires |partial| <= n && InDomain(n, partial) && Consistent(partial)
    requires usedRows == UsedRows(partial) && usedDiffs == UsedDiffs(partial) && usedSums == UsedSums(partial)
    ensures forall s :: s in found <==> IsSolution(n, s) && partial <= s
    ensures Distinct(found)
    decreases n - |partial|
  {
    if |partial| == n {
      found := [partial];
      assert forall s :: IsSolution(n, s) && partial <= s ==> s == partial;
      return;
    }
    var col := |partial|;
    found := [];
    var row := 0;
    while row < n
      invariant 0 <= row <= n
      invariant forall s :: s in found <==> IsSolution(n, s) && partial <= s && s[col] < row
      invariant Distinct(found)
    {
      if row !in usedRows && row - col !in usedDiffs && row + col !in usedSums {
        FreeRowKeepsConsistent(partial, row);
        ConflictSetsGrow(partial, row);
        var sub := Extend(n, partial + [row], usedRows + {row}, usedDiffs + {row - col}, usedSums + {row + col});
        forall s | s in sub ensures partial <= s && s[col] == row {
          ShortenPrefix(partial, row, s);
        }
        forall s | IsSolution(n, s) && partial <= s && s[col] == row ensures s in sub {
          ExtendPrefix(partial, s);
        }
        forall a, b | 0 <= a < |found| && 0 <= b < |sub| ensures found[a] != sub[b] {
          assert found[a] in found && sub[b] in sub;
        }
        DistinctConcat(found, sub);
        found := found + sub;
      } else {
        forall s | IsSolution(n, s) && partial <= s ensures s[col] != row {
          BlockedRowHasNoSolution(n, partial, row, s);
        }
      }
      row := row + 1;
    }
  }

  /** The search from the empty assignment, with empty conflict sets. */
  method Solve(n: nat) returns (found: seq<seq<int>>)
    ensures forall s :: s in found <==> IsSolution(n, s)
    ensures Distinct(found)
  {
    assert UsedRows([]) == {} && UsedDiffs([]) == {} && UsedSums([]) == {};
    found := Extend(n, [], {}, {}, {});
  }

  // ---------------------------------------------------------------------------------
  // The (column, row) output of getAllSolutions

  /** One solution as getAllSolutions lists it: a (column, row) pair per column. */
  function ToPairs(rows: seq<int>): seq<(int, int)> {
    seq(|rows|, c requires 0 <= c < |rows| => (c, rows[c]))
  }

  /** The rows of a list of (column, row) pairs. */
  function AssignedRows(pairs: seq<(int, int)>): seq<int> {
    seq(|pairs|, k requires 0 <= k < |pairs| => pairs[k].1)
  }

  /** The pairs list one solution of the n-column problem, column by column. */
  predicate IsPairSolution(n: int, pairs: seq<(int, int)>) {
    |pairs| == n && (forall c :: 0 <= c < |pairs| ==> pairs[c].0 == c) && IsSolution(n, AssignedRows(pairs))
  }

  /** sols lists every solution of the n-column problem, each exactly once. */
  ghost predicate ListsAllSolutions(n: int, sols: seq<seq<(int, int)>>) {
    Distinct(sols) && forall p :: p in sols <==> IsPairSolution(n, p)
  }

  lemma PairsRoundTrip(rows: seq<int>)
    ensures AssignedRows(ToPairs(rows)) == rows
    ensures forall c :: 0 <= c < |rows| ==> ToPairs(rows)[c].0 == c
  {
  }

  lemma PairsFromRows(pairs: seq<(int, int)>)
    requires forall c :: 0 <= c < |pairs| ==> pairs[c].0 == c
    ensures ToPairs(AssignedRows(pairs)) == pairs
  {
  }

  /** getAllSolutions: post the problem, collect every solution, and convert each into its
      list of (column, row) pairs. A negative n posts no variables, like n = 0. The
      assignments the search returns are exactly those that satisfy every posted constraint. */
  method GetAllSolutions(n: int) returns (solutions: seq<seq<(int, int)>>)
    ensures ListsAllSolutions(if n < 0 then 0 else n, solutions)
  {
    var size := if n < 0 then 0 else n;
    var scopes := ConstraintScopes(size);
    forall rows | |rows| == size && InDomain(size, rows)
      ensures (forall p :: p in scopes ==> Compatible(rows[p.0], rows[p.1], p.0, p.1)) <==> IsSolution(size, rows)
    {
      PostedConstraintsDefineSolutions(size, scopes, rows);
    }
    var found := Solve(size);
    solutions := [];
    for k := 0 to |found|
      invariant |solutions| == k
      invariant forall j :: 0 <= j < k ==> solutions[j] == ToPairs(found[j])
    {
      solutions := solutions + [ToPairs(found[k])];
    }
    forall a, b | 0 <= a < b < |solutions| ensures solutions[a] != solutions[b] {
      PairsRoundTrip(found[a]);
      PairsRoundTrip(found[b]);
    }
    forall p ensures p in solutions <==> IsPairSolution(size, p) {
      if p in solutions {
        var j :| 0 <= j < |solutions| && solutions[j] == p;
        PairsRoundTrip(found[j]);
        assert found[j] in found;
      }
      if IsPairSolution(size, p) {
        PairsFromRows(p);
        var rows := AssignedRows(p);
        assert rows in found;
        var j :| 0 <= j < |found| && found[j] == rows;
        assert solutions[j] == p;
      }
    }
  }

  /** A solution of the constraint problem, read as (row, column) queens counted from 0, is a
      placement on the n x n board, and every such placement with one queen per column in
      column order is a solution: the problem states N-Queens exactly. */
  lemma SolutionIffPlacement(n: int, rows: seq<int>)
    requires |rows| == n
    ensures IsSolution(n, rows) <==> IsPlacement(seq(n, c requires 0 <= c < n => (rows[c], c)), 0, n)
  {
    var qs := seq(n, c requires 0 <= c < n => (rows[c], c));
    if IsSolution(n, rows) {
      forall a, b | 0 <= a < b < n ensures Safe(qs[a], qs[b]) {
        assert Compatible(rows[a], rows[b], a, b);
      }
      PlacementFromSafeQueens(qs, 0, n);
    }
    if IsPlacement(qs, 0, n) {
      PlacementOnBoard(qs, 0, n);
      forall c | 0 <= c < n ensures 0 <= rows[c] < n {
        assert qs[c] == (rows[c], c);
      }
      forall c1, c2 | 0 <= c1 < c2 < n ensures Compatible(rows[c1], rows[c2], c1, c2) {
        assert Safe(qs[c1], qs[c2]);
        assert qs[c1] == (rows[c1], c1) && qs[c2] == (rows[c2], c2);
      }
    }
  }

  /** Two complete, duplicate-free listings of the solutions have the same length: the
      number of solutions does not depend on the order the search visits them in. */
  lemma ListingsHaveEqualLength(n: int, xs: seq<seq<(int, int)>>, ys: seq<seq<(int, int)>>)
    requires ListsAllSolutions(n, xs) && ListsAllSolutions(n, ys)
    ensures |xs| == |ys|
  {
    DistinctElems(xs);
    DistinctElems(ys);
    assert Elems(xs) == Elems(ys);
  }
}
