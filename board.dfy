/** Shared vocabulary of the N-Queens model: what it means for a list of queens to be a
    valid placement on an n x n board, independent of which solver produced it. A queen is a
    pair of integers; this module reads the pair as (row, column). */
module Board {

  function Abs(x: int): int { if x < 0 then -x else x }

  /** Two queens do not attack each other: different rows, different columns and
      different diagonals. */
  predicate Safe(p: (int, int), q: (int, int)) {
    p.0 != q.0 && p.1 != q.1 && Abs(p.0 - q.0) != Abs(p.1 - q.1)
  }

  /** No two queens of the list attack each other. */
  predicate NonAttacking(qs: seq<(int, int)>) {
    forall a, b :: 0 <= a < b < |qs| ==> Safe(qs[a], qs[b])
  }

  /** Every coordinate of every queen lies in lo .. lo + n - 1. */
  predicate OnBoard(qs: seq<(int, int)>, lo: int, n: int) {
    forall k :: 0 <= k < |qs| ==> lo <= qs[k].0 < lo + n && lo <= qs[k].1 < lo + n
  }

  function Rows(qs: seq<(int, int)>): (rs: seq<int>)
    ensures |rs| == |qs| && forall k :: 0 <= k < |qs| ==> rs[k] == qs[k].0
  {
    seq(|qs|, k requires 0 <= k < |qs| => qs[k].0)
  }

  function Cols(qs: seq<(int, int)>): (cs: seq<int>)
    ensures |cs| == |qs| && forall k :: 0 <= k < |qs| ==> cs[k] == qs[k].1
  {
    seq(|qs|, k requires 0 <= k < |qs| => qs[k].1)
  }

  predicate Distinct<T(==)>(xs: seq<T>) {
    forall a, b :: 0 <= a < b < |xs| ==> xs[a] != xs[b]
  }

  /** xs lists each of lo .. lo + |xs| - 1 exactly once. */
  predicate IsPermutationOf(xs: seq<int>, lo: int) {
    && Distinct(xs)
    && (forall k :: 0 <= k < |xs| ==> lo <= xs[k] < lo + |xs|)
    && (forall v :: lo <= v < lo + |xs| ==> v in xs)
  }

  /** A valid placement of n queens with coordinates counted from lo: the rows and the
      columns are each a permutation of lo .. lo + n - 1 and no two queens share a
      diagonal. */
  predicate IsPlacement(qs: seq<(int, int)>, lo: int, n: int) {
    |qs| == n && IsPermutationOf(Rows(qs), lo) && IsPermutationOf(Cols(qs), lo) && NonAttacking(qs)
  }

  function Elems<T>(xs: seq<T>): set<T> { set x | x in xs }

  lemma {:induction false} DistinctElems<T>(xs: seq<T>)
    requires Distinct(xs)
    ensures |Elems(xs)| == |xs|
  {
    if xs != [] {
      var init := xs[..|xs| - 1];
      var last := xs[|xs| - 1];
      assert Distinct(init);
      DistinctElems(init);
      assert Elems(xs) == Elems(init) + {last} by {
        assert xs == init + [last];
      }
      assert last !in Elems(init) by {
        assert forall j :: 0 <= j < |init| ==> init[j] == xs[j] != xs[|xs| - 1];
      }
    }
  }

  /** The integers lo .. lo + n - 1. */
  function Interval(lo: int, n: nat): (r: set<int>)
    ensures |r| == n
    ensures forall v :: v in r <==> lo <= v < lo + n
  {
    if n == 0 then {} else Interval(lo, n - 1) + {lo + n - 1}
  }

  /** Pigeonhole: |xs| distinct values drawn from an interval of |xs| integers cover it. */
  lemma PermutationFromRange(xs: seq<int>, lo: int)
    requires Distinct(xs)
    requires forall k :: 0 <= k < |xs| ==> lo <= xs[k] < lo + |xs|
    ensures IsPermutationOf(xs, lo)
  {
    var e, r := Elems(xs), Interval(lo, |xs|);
    DistinctElems(xs);
    assert e <= r;
    assert |r - e| == 0 by {
      assert r == e + (r - e);
      assert e * (r - e) == {};
    }
    forall v | lo <= v < lo + |xs|
      ensures v in xs
    {
      assert v in r && r - e == {};
      assert v in e;
    }
  }

  /** A list of n non-attacking queens that all stand on the board is a placement: rows and
      columns are then permutations by the pigeonhole principle. */
  lemma PlacementFromSafeQueens(qs: seq<(int, int)>, lo: int, n: int)
    requires |qs| == n && OnBoard(qs, lo, n) && NonAttacking(qs)
    ensures IsPlacement(qs, lo, n)
  {
    var rs, cs := Rows(qs), Cols(qs);
    assert Distinct(rs) by {
      forall a, b | 0 <= a < b < |rs| ensures rs[a] != rs[b] {
        assert Safe(qs[a], qs[b]);
      }
    }
    assert Distinct(cs) by {
      forall a, b | 0 <= a < b < |cs| ensures cs[a] != cs[b] {
        assert Safe(qs[a], qs[b]);
      }
    }
    PermutationFromRange(rs, lo);
    PermutationFromRange(cs, lo);
  }

  /** A placement lies on the board. */
  lemma PlacementOnBoard(qs: seq<(int, int)>, lo: int, n: int)
    requires IsPlacement(qs, lo, n)
    ensures OnBoard(qs, lo, n)
  {
    assert forall k :: 0 <= k < |qs| ==> Rows(qs)[k] == qs[k].0 && Cols(qs)[k] == qs[k].1;
  }
}
