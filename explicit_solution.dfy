/** The closed-form constructor: getExplicitSolution builds one placement for an even board
    size with the Hoffman-Loessi-Moore / Bernhardsson formula, split on n % 6, and
    getFirstSolution extends it to odd sizes by adding a queen in the corner (n, n).
    Queens are (row, column) pairs counted from 1.

    Python's `//` and `%` round towards minus infinity; Dafny's `/` and `%` are Euclidean.
    Both agree whenever the divisor is positive, which is the case for every division here:
    by 2, by 6, and by n inside the loop of the branch where n % 6 == 2. That branch is also
    taken by negative sizes such as -4, but its loop only runs when n / 2 >= 1, so the
    modulo by n is only evaluated for n >= 2. */
module ExplicitSolution {
  import opened Board

  /** The queen iteration i (1 <= i <= n / 2) writes into slot i - 1. When n % 6 == 2 its
      column is 1 + (2 * (i - 1) + n / 2 - 1) % n, which WrappedColumn writes without the
      modulo (WrappedColumnIsModulo proves the two agree). */
  function FirstHalfQueen(n: int, i: int): (int, int) {
    if n % 6 != 2 then (i, 2 * i)
    else (i, WrappedColumn(n / 2, i))
  }

  /** The queen iteration i (1 <= i <= n / 2) writes into slot i - 1 + n / 2; when n % 6 == 2
      its column is n - (2 * (i - 1) + n / 2 - 1) % n. */
  function SecondHalfQueen(n: int, i: int): (int, int) {
    if n % 6 != 2 then (n / 2 + i, 2 * i - 1)
    else (n + 1 - i, n + 1 - WrappedColumn(n / 2, i))
  }

  /** Slot k of the list: the queen some iteration writes there, or the (0, 0) the list
      was initialised with when none does (only the last slot, and only for odd n). */
  function Slot(n: int, k: int): (int, int) {
    var mid := n / 2;
    if 0 <= k < mid then FirstHalfQueen(n, k + 1)
    else if mid <= k < 2 * mid then SecondHalfQueen(n, k - mid + 1)
    else (0, 0)
  }

  /** The list getExplicitSolution(n) returns; `[(0,0)] * n` is empty for n <= 0. */
  function Explicit(n: int): seq<(int, int)> {
    seq(if n < 0 then 0 else n, k => Slot(n, k))
  }

  /** getExplicitSolution: preallocate n placeholder queens, then overwrite slots i - 1 and
      i - 1 + n / 2 for i = 1 .. n / 2, with the formula the residue of n modulo 6 selects. */
  method GetExplicitSolution(n: int) returns (queens: seq<(int, int)>)
    ensures queens == Explicit(n)
    ensures n >= 0 ==> |queens| == n
    ensures n >= 4 && n % 2 == 0 ==> IsPlacement(queens, 1, n)
  {
    var board := new (int, int)[if n < 0 then 0 else n](_ => (0, 0));
    var mid := n / 2;
    if n % 6 != 2 {
      FillRegular(board, n, mid);
    } else {
      FillWrapped(board, n, mid);
    }
    queens := board[..];
    if n >= 4 && n % 2 == 0 {
      ExplicitIsPlacement(n);
    }
  }

  /** The loop of the n % 6 != 2 branch: iteration i writes (i, 2i) and (mid + i, 2i - 1). */
  method FillRegular(board: array<(int, int)>, n: int, mid: int)
    requires n % 6 != 2 && mid == n / 2 && board.Length == (if n < 0 then 0 else n)
    requires forall k :: 0 <= k < board.Length ==> board[k] == (0, 0)
    modifies board
    ensures board[..] == Explicit(n)
  {
    var i := 1;
    while i <= mid
      invariant 1 <= i <= (if mid < 0 then 0 else mid) + 1
      invariant forall k :: 0 <= k < board.Length ==>
        board[k] == if k < i - 1 || mid <= k < mid + i - 1 then Slot(n, k) else (0, 0)
    {
      board[i - 1] := (i, 2 * i);
      board[i - 1 + mid] := (mid + i, 2 * i - 1);
      i := i + 1;
    }
    assert forall k :: 0 <= k < board.Length ==> board[..][k] == Explicit(n)[k];
  }

  /** The loop of the n % 6 == 2 branch: iteration i writes the first-half queen and its
      mirror image through the centre of the board. */
  method FillWrapped(board: array<(int, int)>, n: int, mid: int)
    requires n % 6 == 2 && mid == n / 2 && board.Length == (if n < 0 then 0 else n)
    requires forall k :: 0 <= k < board.Length ==> board[k] == (0, 0)
    modifies board
    ensures board[..] == Explicit(n)
  {
    var i := 1;
    while i <= mid
      invariant 1 <= i <= (if mid < 0 then 0 else mid) + 1
      invariant forall k :: 0 <= k < board.Length ==>
        board[k] == if k < i - 1 || mid <= k < mid + i - 1 then Slot(n, k) else (0, 0)
    {
      WrappedColumnIsModulo(n, mid, i);
      board[i - 1] := (i, 1 + (2 * (i - 1) + mid - 1) % n);
      board[i - 1 + mid] := (n + 1 - i, n - (2 * (i - 1) + mid - 1) % n);
      i := i + 1;
    }
    assert forall k :: 0 <= k < board.Length ==> board[..][k] == Explicit(n)[k];
  }

  /** getFirstSolution: the explicit solution for even n; for odd n the explicit solution
      for n - 1 with the queen (n, n) appended. */
  method GetFirstSolution(n: int) returns (solutions: seq<(int, int)>)
    ensures n % 2 == 0 ==> solutions == Explicit(n)
    ensures n % 2 == 1 ==> solutions == Explicit(n - 1) + [(n, n)]
    ensures n >= 0 ==> |solutions| == n
    ensures n == 1 || n >= 4 ==> IsPlacement(solutions, 1, n)
    ensures n == 3 ==> solutions == [(1, 1), (2, 2), (3, 3)] && !NonAttacking(solutions)
  {
    if n % 2 == 0 {
      solutions := GetExplicitSolution(n);
    } else {
      solutions := GetExplicitSolution(n - 1);
      solutions := solutions + [(n, n)];
      if n == 1 || n >= 5 {
        OddExtensionIsPlacement(n);
      } else if n == 3 {
        SmallBoards();
        assert !Safe(solutions[0], solutions[1]);
      }
    }
  }

  // ---------------------------------------------------------------------------------
  // Shape of the result

  /** For odd n the loop writes slots 0 .. n - 2 only: the last slot keeps its (0, 0). */
  lemma OddLeavesLastSlot(n: int)
    requires n >= 1 && n % 2 == 1
    ensures |Explicit(n)| == n && Explicit(n)[n - 1] == (0, 0)
    ensures OnBoard(Explicit(n)[..n - 1], 1, n)
  {
  }

  /** For even n the two writes of iterations 1 .. n / 2 reach every slot: no queen keeps
      the placeholder (0, 0), since every row written is at least 1. */
  lemma EvenFillsEverySlot(n: int)
    requires n >= 0 && n % 2 == 0
    ensures |Explicit(n)| == n
    ensures forall k :: 0 <= k < n ==> Explicit(n)[k].0 >= 1 && Explicit(n)[k] != (0, 0)
  {
    var m := n / 2;
    assert n == 2 * m;
  }

  /** When n % 6 != 2 the rows come out as 1 .. n in order and the columns as the even
      numbers 2, 4, .., n followed by the odd numbers 1, 3, .., n - 1. */
  lemma RegularShape(n: int)
    requires n >= 0 && n % 2 == 0 && n % 6 != 2
    ensures forall k :: 0 <= k < n ==> Explicit(n)[k].0 == k + 1
    ensures forall k :: 0 <= k < n / 2 ==> Explicit(n)[k].1 == 2 * k + 2
    ensures forall k :: n / 2 <= k < n ==> Explicit(n)[k].1 == 2 * (k - n / 2) + 1
    ensures IsPermutationOf(Rows(Explicit(n)), 1) && IsPermutationOf(Cols(Explicit(n)), 1)
  {
    var s := Explicit(n);
    var mid := n / 2;
    assert Distinct(Rows(s));
    assert Distinct(Cols(s)) by {
      forall a, b | 0 <= a < b < n ensures Cols(s)[a] != Cols(s)[b] {
        if a < mid && mid <= b {
          assert Cols(s)[a] - Cols(s)[b] == 2 * (a - b + mid) + 1;
        }
      }
    }
    PermutationFromRange(Rows(s), 1);
    PermutationFromRange(Cols(s), 1);
  }

  /** The column of the first-half queen i in the n % 6 == 2 branch, with m = n / 2 and the
      modulo written out: 2 * (i - 1) + m - 1 lies below 2 * n, so the modulo by n
      subtracts n at most once. */
  function WrappedColumn(m: int, i: int): int {
    if 2 * i - 3 < m then m + 2 * i - 2 else 2 * i - m - 2
  }

  /** The modulo in the n % 6 == 2 branch subtracts n at most once: with n = 2m and
      1 <= i <= m, the value 2 * (i - 1) + m - 1 lies in 0 .. 2n - 1. */
  lemma WrappedColumnIsModulo(n: int, m: int, i: int)
    requires n == 2 * m && 1 <= i <= m
    ensures 1 + (2 * (i - 1) + m - 1) % n == WrappedColumn(m, i)
    ensures n - (2 * (i - 1) + m - 1) % n == n + 1 - WrappedColumn(m, i)
  {
    var x := 2 * (i - 1) + m - 1;
    if x < n {
      ModBelow(x, n);
    } else {
      ModOnce(x, n);
    }
  }

  lemma ModBelow(x: int, n: int)
    requires 0 <= x < n
    ensures x % n == x
  {
  }

  lemma ModOnce(x: int, n: int)
    requires 0 < n <= x < 2 * n
    ensures x % n == x - n
  {
  }

  /** A board size n = 6q + 2 has half m = 3q + 1. */
  lemma WrappedHalf(n: int)
    requires n % 6 == 2
    ensures n == 2 * (n / 2) && (n / 2) % 3 == 1
  {
    var q := n / 6;
    assert n == 6 * q + 2;
    assert n / 2 == 3 * q + 1;
  }

  /** Slot k of the n % 6 == 2 branch: the first half holds (i, WrappedColumn(m, i)) and the
      second half its mirror images, rows running from n down to m + 1. */
  lemma WrappedSlot(n: int, m: int, k: int)
    requires n == 2 * m && n % 6 == 2 && 0 <= k < n
    ensures k < m ==> Slot(n, k) == (k + 1, WrappedColumn(m, k + 1))
    ensures m <= k ==> Slot(n, k) == Rotate(n, (k - m + 1, WrappedColumn(m, k - m + 1)))
  {
    assert n / 2 == m;
  }

  /** When n % 6 == 2 every coordinate lies in 1 .. n, the rows come out as 1 .. n / 2
      followed by n down to n / 2 + 1, and rows and columns are permutations of 1 .. n. */
  lemma WrappedShape(n: int)
    requires n >= 0 && n % 6 == 2
    ensures OnBoard(Explicit(n), 1, n)
    ensures forall k :: 0 <= k < n / 2 ==> Explicit(n)[k].0 == k + 1
    ensures forall k :: n / 2 <= k < n ==> Explicit(n)[k].0 == n + n / 2 - k
    ensures IsPermutationOf(Rows(Explicit(n)), 1) && IsPermutationOf(Cols(Explicit(n)), 1)
  {
    var s := Explicit(n);
    var m := n / 2;
    WrappedHalf(n);
    forall k | 0 <= k < n
      ensures s[k].0 == if k < m then k + 1 else n + m - k
      ensures 1 <= s[k].0 <= n && 1 <= s[k].1 <= n
    {
      WrappedSlot(n, m, k);
      WrappedColumnRange(m, if k < m then k + 1 else k - m + 1);
    }
    WrappedColumnsDistinct(n, m);
    PermutationFromRange(Rows(s), 1);
    PermutationFromRange(Cols(s), 1);
  }

  lemma WrappedColumnsDistinct(n: int, m: int)
    requires n == 2 * m && n % 6 == 2
    ensures Distinct(Cols(Explicit(n)))
  {
    var s := Explicit(n);
    forall a, b | 0 <= a < b < n ensures Cols(s)[a] != Cols(s)[b] {
      WrappedSlot(n, m, a);
      WrappedSlot(n, m, b);
      if b < m {
        WrappedColumnsDiffer(m, a + 1, b + 1);
      } else if a < m {
        WrappedColumnRange(m, a + 1);
        WrappedColumnRange(m, b - m + 1);
      } else {
        WrappedColumnsDiffer(m, a - m + 1, b - m + 1);
      }
    }
  }

  lemma WrappedColumnsDiffer(m: int, i: int, j: int)
    requires 1 <= i < j <= m
    ensures WrappedColumn(m, i) != WrappedColumn(m, j)
  {
  }

  /** Every first-half column lies in 1 .. 2m and has the parity of m, so a first-half column
      and the mirror image 2m + 1 - c of another never coincide. */
  lemma WrappedColumnRange(m: int, i: int)
    requires 1 <= i <= m
    ensures 1 <= WrappedColumn(m, i) <= 2 * m
    ensures (WrappedColumn(m, i) - m) % 2 == 0
  {
    if 2 * i - 3 < m {
      assert WrappedColumn(m, i) - m == 2 * (i - 1);
    } else {
      assert WrappedColumn(m, i) - m == 2 * (i - 1 - m);
    }
  }

  // ---------------------------------------------------------------------------------
  // Non-attack

  /** Turning the board by 180 degrees. */
  function Rotate(n: int, p: (int, int)): (int, int) { (n + 1 - p.0, n + 1 - p.1) }

  lemma RotateKeepsSafe(n: int, p: (int, int), q: (int, int))
    requires Safe(p, q)
    ensures Safe(Rotate(n, p), Rotate(n, q))
  {
    assert Rotate(n, p).0 - Rotate(n, q).0 == -(p.0 - q.0);
    assert Rotate(n, p).1 - Rotate(n, q).1 == -(p.1 - q.1);
  }

  /** Pairs of queens in the n % 6 != 2 construction: the two halves lie on lines of slope 2,
      and a queen of one half and a queen of the other would share an anti-diagonal only if
      n / 2 left remainder 1 modulo 3, that is only if n % 6 == 2. */
  lemma RegularPairSafe(n: int, a: int, b: int)
    requires n >= 4 && n % 2 == 0 && n % 6 != 2 && 0 <= a < b < n
    ensures Safe(Slot(n, a), Slot(n, b))
  {
    var mid := n / 2;
    var t := mid / 3;
    assert mid == 3 * t + mid % 3;
    assert n == 6 * t + 2 * (mid % 3);
    assert mid % 3 != 1;
    if a < mid && mid <= b {
      var i, j := a + 1, b - mid + 1;
      var dr, dc := (mid + j) - i, (2 * j - 1) - 2 * i;
      assert dr - dc == mid - j + i + 1;
      assert dr + dc == 3 * (t + j - i) + mid % 3 - 1;
    }
  }

  lemma WrappedFirstHalfSafe(m: int, i: int, j: int)
    requires m >= 4 && m % 3 == 1 && 1 <= i < j <= m
    ensures Safe((i, WrappedColumn(m, i)), (j, WrappedColumn(m, j)))
  {
    var t := m / 3;
    assert m == 3 * t + 1;
  }

  /** A queen of the first half never attacks the mirror image of a queen of the first
      half: the mirror images fill the other half, which is how the second half is built. */
  lemma WrappedCrossSafe(m: int, i: int, j: int)
    requires m >= 4 && m % 3 == 1 && 1 <= i <= m && 1 <= j <= m
    ensures Safe((i, WrappedColumn(m, i)), Rotate(2 * m, (j, WrappedColumn(m, j))))
  {
    var t := m / 3;
    assert m == 3 * t + 1;
    WrappedColumnRange(m, i);
    WrappedColumnRange(m, j);
  }

  lemma WrappedPairSafe(n: int, a: int, b: int)
    requires n >= 8 && n % 6 == 2 && 0 <= a < b < n
    ensures Safe(Slot(n, a), Slot(n, b))
  {
    var m := n / 2;
    WrappedHalf(n);
    WrappedSlot(n, m, a);
    WrappedSlot(n, m, b);
    if b < m {
      WrappedFirstHalfSafe(m, a + 1, b + 1);
    } else if a < m {
      WrappedCrossSafe(m, a + 1, b - m + 1);
    } else {
      var i, j := a - m + 1, b - m + 1;
      WrappedFirstHalfSafe(m, i, j);
      RotateKeepsSafe(n, (i, WrappedColumn(m, i)), (j, WrappedColumn(m, j)));
    }
  }

  /** No queen of the construction stands on the main diagonal row == column; this is what
      makes the corner queen (n + 1, n + 1) of the odd extension safe. */
  lemma OffMainDiagonal(n: int, k: int)
    requires n >= 4 && n % 2 == 0 && 0 <= k < n
    ensures Slot(n, k).0 != Slot(n, k).1
  {
    var m := n / 2;
    if n % 6 == 2 {
      WrappedHalf(n);
      WrappedSlot(n, m, k);
    }
  }

  /** The guarantee the cited constructions give: for every even n >= 4 the explicit
      solution is a placement on the n x n board counted from 1, and it leaves the main
      diagonal free. */
  lemma ExplicitIsPlacement(n: int)
    requires n >= 4 && n % 2 == 0
    ensures IsPlacement(Explicit(n), 1, n)
    ensures forall k :: 0 <= k < n ==> Explicit(n)[k].0 != Explicit(n)[k].1
  {
    var s := Explicit(n);
    forall a, b | 0 <= a < b < n ensures Safe(s[a], s[b]) {
      if n % 6 == 2 { WrappedPairSafe(n, a, b); } else { RegularPairSafe(n, a, b); }
    }
    forall k | 0 <= k < n ensures s[k].0 != s[k].1 {
      OffMainDiagonal(n, k);
    }
    if n % 6 == 2 { WrappedShape(n); } else { RegularShape(n); }
  }

  /** The odd-size reduction of getFirstSolution is valid for n = 1 and every odd n >= 5:
      the (n - 1)-solution uses rows and columns below n and never row == column, so the
      queen (n, n) attacks none of it. */
  lemma OddExtensionIsPlacement(n: int)
    requires n % 2 == 1 && (n == 1 || n >= 5)
    ensures IsPlacement(Explicit(n - 1) + [(n, n)], 1, n)
  {
    var s := Explicit(n - 1);
    var q := s + [(n, n)];
    if n >= 5 {
      ExplicitIsPlacement(n - 1);
      PlacementOnBoard(s, 1, n - 1);
      forall a, b | 0 <= a < b < n ensures Safe(q[a], q[b]) {
        if b == n - 1 {
          assert q[a] == s[a] && q[b] == (n, n);
          assert 1 <= s[a].0 < n && 1 <= s[a].1 < n && s[a].0 != s[a].1;
        } else {
          assert q[a] == s[a] && q[b] == s[b];
        }
      }
    }
    PlacementFromSafeQueens(q, 1, n);
  }

  /** The edge cases the code does not reject: n = 0 gives the empty list, n = 2 gives two
      queens on one diagonal, and so getFirstSolution(3) is three queens on one diagonal. */
  lemma SmallBoards()
    ensures Explicit(0) == []
    ensures Explicit(2) == [(1, 1), (2, 2)] && !NonAttacking(Explicit(2))
    ensures Explicit(2) + [(3, 3)] == [(1, 1), (2, 2), (3, 3)]
  {
    assert FirstHalfQueen(2, 1) == (1, 1) && SecondHalfQueen(2, 1) == (2, 2);
    assert Slot(2, 0) == (1, 1) && Slot(2, 1) == (2, 2);
    var e := Explicit(2);
    assert |e| == 2 && e[0] == (1, 1) && e[1] == (2, 2);
    PairSeq(e);
    assert !Safe(e[0], e[1]);
  }

  lemma PairSeq(s: seq<(int, int)>)
    requires |s| == 2
    ensures s == [s[0], s[1]]
  {
  }
}
