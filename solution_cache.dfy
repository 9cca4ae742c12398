/** The pure part of the placement cache. saveSolution turns a placement into one table row
    per queen, all carrying the caller's identifier and the board size; getCachedSolution
    selects the rows for a board size and returns the queens of the smallest identifier
    among them. The table is an in-memory, append-only list of rows in insertion order. */
module SolutionCache {

  /** One row of the table: (id, N, row, column). */
  datatype Record = Record(id: int, N: int, row: int, column: int)

  /** The rows saveSolution inserts for `solution` under identifier `ix`, one per queen. */
  function SolutionRecords(solution: seq<(int, int)>, ix: int): seq<Record> {
    seq(|solution|, k requires 0 <= k < |solution| => Record(ix, |solution|, solution[k].0, solution[k].1))
  }

  /** The table after saveSolution has inserted `solution` under `ix`. */
  function Save(table: seq<Record>, solution: seq<(int, int)>, ix: int): seq<Record> {
    table + SolutionRecords(solution, ix)
  }

  /** The rows whose board size is N, in table order. */
  function RecordsFor(table: seq<Record>, N: int): (res: seq<Record>)
    ensures forall r :: r in res <==> r in table && r.N == N
  {
    if table == [] then []
    else (if table[0].N == N then [table[0]] else []) + RecordsFor(table[1..], N)
  }

  /** The smallest identifier among a non-empty list of rows. */
  function MinId(res: seq<Record>): (m: int)
    requires res != []
    ensures exists k :: 0 <= k < |res| && res[k].id == m
    ensures forall k :: 0 <= k < |res| ==> m <= res[k].id
  {
    if |res| == 1 then res[0].id
    else
      var rest := MinId(res[1..]);
      if res[0].id <= rest then res[0].id else rest
  }

  /** The (row, column) pairs of the rows with identifier `id`, in table order. */
  function QueensWithId(res: seq<Record>, id: int): seq<(int, int)> {
    if res == [] then []
    else (if res[0].id == id then [(res[0].row, res[0].column)] else []) + QueensWithId(res[1..], id)
  }

  /** getCachedSolution: nothing when no row has board size N, otherwise the queens stored
      under the smallest identifier among the rows for N. */
  function CachedSolution(table: seq<Record>, N: int): (solution: seq<(int, int)>)
    ensures solution == [] <==> forall r :: r in table ==> r.N != N
  {
    var res := RecordsFor(table, N);
    if |res| > 0 then
      var idS := MinId(res);
      QueensWithIdNonEmpty(res, idS);
      QueensWithId(res, idS)
    else []
  }

  lemma {:induction false} QueensWithIdNonEmpty(res: seq<Record>, id: int)
    requires exists k :: 0 <= k < |res| && res[k].id == id
    ensures QueensWithId(res, id) != []
  {
    if res[0].id != id {
      var k :| 0 <= k < |res| && res[k].id == id;
      assert res[1..][k - 1] == res[k];
      QueensWithIdNonEmpty(res[1..], id);
    }
  }

  lemma {:induction false} RecordsForAppend(table: seq<Record>, more: seq<Record>, N: int)
    ensures RecordsFor(table + more, N) == RecordsFor(table, N) + RecordsFor(more, N)
  {
    if table != [] {
      assert (table + more)[1..] == table[1..] + more;
      RecordsForAppend(table[1..], more, N);
    } else {
      assert table + more == more;
    }
  }

  lemma {:induction false} QueensWithIdAppend(xs: seq<Record>, ys: seq<Record>, id: int)
    ensures QueensWithId(xs + ys, id) == QueensWithId(xs, id) + QueensWithId(ys, id)
  {
    if xs != [] {
      assert (xs + ys)[1..] == xs[1..] + ys;
      QueensWithIdAppend(xs[1..], ys, id);
    } else {
      assert xs + ys == ys;
    }
  }

  /** Every row of SolutionRecords(s, ix) has board size |s| and identifier ix, and reading
      the queens of identifier ix back gives s in order. */
  lemma {:induction false} RecordsRoundTrip(s: seq<(int, int)>, ix: int)
    ensures RecordsFor(SolutionRecords(s, ix), |s|) == SolutionRecords(s, ix)
    ensures QueensWithId(SolutionRecords(s, ix), ix) == s
  {
    var recs := SolutionRecords(s, ix);
    RecordsForAll(recs, |s|);
    QueensWithIdAll(recs, ix);
  }

  lemma {:induction false} RecordsForAll(recs: seq<Record>, N: int)
    requires forall k :: 0 <= k < |recs| ==> recs[k].N == N
    ensures RecordsFor(recs, N) == recs
  {
    if recs != [] {
      RecordsForAll(recs[1..], N);
    }
  }

  lemma {:induction false} QueensWithIdAll(recs: seq<Record>, id: int)
    requires forall k :: 0 <= k < |recs| ==> recs[k].id == id
    ensures |QueensWithId(recs, id)| == |recs|
    ensures forall k :: 0 <= k < |recs| ==> QueensWithId(recs, id)[k] == (recs[k].row, recs[k].column)
  {
    if recs != [] {
      QueensWithIdAll(recs[1..], id);
    }
  }

  lemma {:induction false} QueensWithIdNone(recs: seq<Record>, id: int)
    requires forall k :: 0 <= k < |recs| ==> recs[k].id != id
    ensures QueensWithId(recs, id) == []
  {
    if recs != [] {
      QueensWithIdNone(recs[1..], id);
    }
  }

  /** Saving a placement for a board size that has no rows yet and then looking that size
      up returns the placement, whatever identifier it was saved under. */
  lemma SaveThenLookup(table: seq<Record>, s: seq<(int, int)>, ix: int)
    requires forall r :: r in table ==> r.N != |s|
    ensures CachedSolution(Save(table, s, ix), |s|) == s
  {
    var recs := SolutionRecords(s, ix);
    var t := Save(table, s, ix);
    assert t == table + recs;
    RecordsForAppend(table, recs, |s|);
    RecordsForNone(table, |s|);
    RecordsRoundTrip(s, ix);
    assert RecordsFor(t, |s|) == recs;
    if s != [] {
      var m := MinId(recs);
      assert m == ix by {
        var k :| 0 <= k < |recs| && recs[k].id == m;
      }
      CachedSolutionOf(t, |s|, recs, ix);
    }
  }

  /** Unfolds CachedSolution once its selected rows and smallest identifier are known. */
  lemma CachedSolutionOf(table: seq<Record>, N: int, res: seq<Record>, m: int)
    requires RecordsFor(table, N) == res && res != [] && MinId(res) == m
    ensures CachedSolution(table, N) == QueensWithId(res, m)
  {
  }

  /** Identifiers only grow (the caller increments its counter after each save), so a later
      save never changes what a lookup returns for a board size that is already stored, nor
      for any other board size: lookups return the earliest stored placement. */
  lemma LaterSaveKeepsLookup(table: seq<Record>, s: seq<(int, int)>, ix: int, N: int)
    requires forall r :: r in table ==> r.id < ix
    requires N != |s| || exists r :: r in table && r.N == N
    ensures CachedSolution(Save(table, s, ix), N) == CachedSolution(table, N)
  {
    var recs := SolutionRecords(s, ix);
    assert Save(table, s, ix) == table + recs;
    RecordsForAppend(table, recs, N);
    if N != |s| {
      RecordsForNone(recs, N);
      assert RecordsFor(table, N) + RecordsFor(recs, N) == RecordsFor(table, N);
      CachedSolutionOfRecords(Save(table, s, ix), table, N);
    } else {
      var r :| r in table && r.N == N;
      LaterSaveSameSize(table, recs, s, ix, r);
    }
  }

  /** The case of LaterSaveKeepsLookup where the saved placement has the looked-up size. */
  lemma LaterSaveSameSize(table: seq<Record>, recs: seq<Record>, s: seq<(int, int)>, ix: int, r: Record)
    requires forall r :: r in table ==> r.id < ix
    requires recs == SolutionRecords(s, ix) && r in table && r.N == |s|
    requires RecordsFor(table + recs, |s|) == RecordsFor(table, |s|) + RecordsFor(recs, |s|)
    ensures CachedSolution(table + recs, |s|) == CachedSolution(table, |s|)
  {
    var N := |s|;
    var oldRes, newRes := RecordsFor(table, N), RecordsFor(recs, N);
    assert r in oldRes;
    RecordsRoundTrip(s, ix);
    assert newRes == recs;
    forall k | 0 <= k < |oldRes| ensures oldRes[k].id < ix {
      assert oldRes[k] in oldRes;
    }
    var m := MinId(oldRes);
    HigherIdsKeepQueens(oldRes, newRes, ix);
    CachedSolutionOf(table, N, oldRes, m);
    CachedSolutionOf(table + recs, N, oldRes + newRes, m);
  }

  /** Appending rows under a fresh, larger identifier keeps the selected identifier and the
      queens read back for it. */
  lemma HigherIdsKeepQueens(xs: seq<Record>, ys: seq<Record>, ix: int)
    requires xs != [] && forall k :: 0 <= k < |xs| ==> xs[k].id < ix
    requires forall k :: 0 <= k < |ys| ==> ys[k].id == ix
    ensures MinId(xs + ys) == MinId(xs)
    ensures QueensWithId(xs + ys, MinId(xs)) == QueensWithId(xs, MinId(xs))
  {
    var m := MinId(xs);
    MinIdKept(xs, ys, ix);
    QueensWithIdAppend(xs, ys, m);
    QueensWithIdNone(ys, m);
  }

  /** The lookup depends only on the rows selected for the board size. */
  lemma CachedSolutionOfRecords(t1: seq<Record>, t2: seq<Record>, N: int)
    requires RecordsFor(t1, N) == RecordsFor(t2, N)
    ensures CachedSolution(t1, N) == CachedSolution(t2, N)
  {
  }

  /** Appending rows whose identifier exceeds every existing one keeps the minimum, and
      none of the appended rows carries it. */
  lemma MinIdKept(xs: seq<Record>, ys: seq<Record>, ix: int)
    requires xs != [] && forall k :: 0 <= k < |xs| ==> xs[k].id < ix
    requires forall k :: 0 <= k < |ys| ==> ys[k].id == ix
    ensures MinId(xs + ys) == MinId(xs)
    ensures forall k :: 0 <= k < |ys| ==> ys[k].id != MinId(xs)
  {
    var all, m := xs + ys, MinId(xs);
    var k :| 0 <= k < |all| && all[k].id == MinId(all);
    var j :| 0 <= j < |xs| && xs[j].id == m;
    assert all[j] == xs[j];
    if k >= |xs| {
      assert all[k] == ys[k - |xs|];
    } else {
      assert all[k] == xs[k];
    }
  }

  lemma {:induction false} RecordsForNone(recs: seq<Record>, N: int)
    requires forall k :: 0 <= k < |recs| ==> recs[k].N != N
    ensures RecordsFor(recs, N) == []
  {
    if recs != [] {
      RecordsForNone(recs[1..], N);
    }
  }
}
