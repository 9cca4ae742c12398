/** The table of known solution counts (OEIS A002562, indexed by board size from 0) and the
    count check the test suite runs against getAllSolutions, proved here for the board
    sizes small enough to settle by case analysis. */
module SolutionCounts {
  import opened Board
  import opened AllSolutions

  /** Number of placements of n queens on an n x n board, for n = 0 .. 27. */
  const NSolutions: seq<int> := [1, 1, 0, 0, 2, 10, 4, 40, 92, 352, 724, 2680, 14200, 73712,
    365596, 2279184, 14772512, 95815104, 666090624,
    4968057848, 39029188884, 314666222712, 2691008701644,
    24233937684440, 227514171973736, 2207893435808352,
    22317699616364044, 234907967154122528]

  lemma SizeTwoConflict(rows: seq<int>)
    requires |rows| == 2 && InDomain(2, rows)
    ensures !Compatible(rows[0], rows[1], 0, 1)
  {
  }

  lemma SizeThreeConflict(rows: seq<int>)
    requires |rows| == 3 && InDomain(3, rows)
    ensures !Compatible(rows[0], rows[1], 0, 1) || !Compatible(rows[1], rows[2], 1, 2)
         || !Compatible(rows[0], rows[2], 0, 2)
  {
    assert 0 <= rows[0] < 3 && 0 <= rows[1] < 3 && 0 <= rows[2] < 3;
  }

  lemma SizeFourCases(rows: seq<int>)
    requires |rows| == 4 && InDomain(4, rows)
    requires Compatible(rows[0], rows[1], 0, 1) && Compatible(rows[0], rows[2], 0, 2)
    requires Compatible(rows[0], rows[3], 0, 3) && Compatible(rows[1], rows[2], 1, 2)
    requires Compatible(rows[1], rows[3], 1, 3) && Compatible(rows[2], rows[3], 2, 3)
    ensures rows == [1, 3, 0, 2] || rows == [2, 0, 3, 1]
  {
    assert 0 <= rows[0] < 4 && 0 <= rows[1] < 4 && 0 <= rows[2] < 4 && 0 <= rows[3] < 4;
    assert rows == [rows[0], rows[1], rows[2], rows[3]];
  }

  /** The solutions of the problem for n = 0 .. 4: the empty assignment, the single queen,
      none for 2 and 3, and the two mirror-image placements for 4. */
  lemma SmallSolutions(n: int, rows: seq<int>)
    requires 0 <= n <= 4
    ensures n == 0 ==> (IsSolution(n, rows) <==> rows == [])
    ensures n == 1 ==> (IsSolution(n, rows) <==> rows == [0])
    ensures n == 2 || n == 3 ==> !IsSolution(n, rows)
    ensures n == 4 ==> (IsSolution(n, rows) <==> rows == [1, 3, 0, 2] || rows == [2, 0, 3, 1])
  {
    if |rows| == n && InDomain(n, rows) {
      if n == 2 {
        SizeTwoConflict(rows);
      } else if n == 3 {
        SizeThreeConflict(rows);
      } else if n == 4 && Consistent(rows) {
        SizeFourCases(rows);
      }
    }
    if n == 4 {
      var a, b := [1, 3, 0, 2], [2, 0, 3, 1];
      forall c1, c2 | 0 <= c1 < c2 < 4 ensures Compatible(a[c1], a[c2], c1, c2) && Compatible(b[c1], b[c2], c1, c2) {
        assert c1 == 0 || c1 == 1 || c1 == 2;
        assert c2 == 1 || c2 == 2 || c2 == 3;
      }
    }
  }

  /** A complete, duplicate-free listing of the solutions has as many entries as a set of
      row assignments that contains exactly the solutions. */
  lemma ListingSize(n: int, sols: seq<seq<(int, int)>>, rowSets: set<seq<int>>)
    requires ListsAllSolutions(n, sols)
    requires forall rows :: IsSolution(n, rows) <==> rows in rowSets
    ensures |sols| == |rowSets|
  {
    var pairSets := set rows | rows in rowSets :: ToPairs(rows);
    forall p ensures p in sols <==> p in pairSets {
      if IsPairSolution(n, p) {
        PairsFromRows(p);
        assert AssignedRows(p) in rowSets;
      }
      if p in pairSets {
        var rows :| rows in rowSets && ToPairs(rows) == p;
        PairsRoundTrip(rows);
      }
    }
    assert Elems(sols) == pairSets;
    DistinctElems(sols);
    ToPairsSetSize(rowSets);
  }

  lemma ToPairsSetSize(rowSets: set<seq<int>>)
    ensures |set rows | rows in rowSets :: ToPairs(rows)| == |rowSets|
  {
    if rowSets != {} {
      var r :| r in rowSets;
      var rest := rowSets - {r};
      ToPairsSetSize(rest);
      var image := set rows | rows in rowSets :: ToPairs(rows);
      var restImage := set rows | rows in rest :: ToPairs(rows);
      assert image == restImage + {ToPairs(r)};
      assert ToPairs(r) !in restImage by {
        forall rows | rows in rest ensures ToPairs(rows) != ToPairs(r) {
          PairsRoundTrip(rows);
          PairsRoundTrip(r);
        }
      }
    }
  }

  /** The count check of the test suite, for n = 0 .. 4: any complete, duplicate-free
      listing of the solutions (such as the one getAllSolutions returns) has NSolutions[n]
      entries; for n = 0 and n = 1 the listing is fixed outright. */
  lemma SmallBoardCounts(n: int, sols: seq<seq<(int, int)>>)
    requires 0 <= n <= 4 && ListsAllSolutions(n, sols)
    ensures |sols| == NSolutions[n]
    ensures n == 0 ==> sols == [[]]
    ensures n == 1 ==> sols == [[(0, 0)]]
  {
    var rowSets: set<seq<int>> :=
      if n == 0 then {[]} else if n == 1 then {[0]} else if n == 4 then {[1, 3, 0, 2], [2, 0, 3, 1]} else {};
    forall rows ensures IsSolution(n, rows) <==> rows in rowSets {
      SmallSolutions(n, rows);
    }
    ListingSize(n, sols, rowSets);
    if n == 4 {
      assert [1, 3, 0, 2] != [2, 0, 3, 1] by { assert [1, 3, 0, 2][0] != [2, 0, 3, 1][0]; }
    }
    if n == 0 || n == 1 {
      var only := if n == 0 then [] else [(0, 0)];
      assert IsPairSolution(n, only) by {
        SmallSolutions(n, AssignedRows(only));
      }
      assert only in sols;
      assert |sols| == 1;
      assert sols == [sols[0]];
    }
  }
}
