/** `aggregate.sort(key=lambda x: x['average_rank'])`. Python's list sort is
    stable, so the ordering is modelled by a stable insertion sort: a row
    goes after every row whose average is not larger than its own. */
module RankSort {
  import opened CouncilTypes

  /** Lower averages first. */
  predicate SortedByAverage(rows: seq<AggregateRow>)
  {
    forall i, j | 0 <= i < j < |rows| :: rows[i].averageRank <= rows[j].averageRank
  }

  /** Rows of equal average appear in increasing order of `key`. */
  predicate TiesOrderedBy(rows: seq<AggregateRow>, key: Model -> int)
  {
    forall i, j | 0 <= i < j < |rows| && rows[i].averageRank == rows[j].averageRank ::
      key(rows[i].model) < key(rows[j].model)
  }

  /** No model has two rows. */
  predicate DistinctModels(rows: seq<AggregateRow>)
  {
    forall i, j | 0 <= i < j < |rows| :: rows[i].model != rows[j].model
  }

  /** Puts `row` after the leading rows whose average is at most its own. */
  function Insert(sorted: seq<AggregateRow>, row: AggregateRow): (r: seq<AggregateRow>)
    ensures multiset(r) == multiset(sorted) + multiset{row}
    decreases |sorted|
  {
    if sorted == [] then [row]
    else if row.averageRank < sorted[0].averageRank then [row] + sorted
    else
      assert sorted == [sorted[0]] + sorted[1..];
      [sorted[0]] + Insert(sorted[1..], row)
  }

  /** The stable sort by average, inserting the rows in their given order. */
  function SortByAverage(rows: seq<AggregateRow>): (r: seq<AggregateRow>)
    ensures multiset(r) == multiset(rows)
    decreases |rows|
  {
    if rows == [] then []
    else
      assert rows == rows[..|rows| - 1] + [rows[|rows| - 1]];
      Insert(SortByAverage(rows[..|rows| - 1]), rows[|rows| - 1])
  }

  lemma {:induction false} InsertSorted(sorted: seq<AggregateRow>, row: AggregateRow)
    requires SortedByAverage(sorted)
    ensures SortedByAverage(Insert(sorted, row))
    decreases |sorted|
  {
    if sorted != [] && row.averageRank >= sorted[0].averageRank {
      var rest := Insert(sorted[1..], row);
      InsertSorted(sorted[1..], row);
      forall z <- rest ensures sorted[0].averageRank <= z.averageRank {
        assert z in multiset(rest);
      }
    }
  }

  /** The result is ordered by average (and, by its own contract, a
      permutation of the input). */
  lemma {:induction false} SortSorted(rows: seq<AggregateRow>)
    ensures SortedByAverage(SortByAverage(rows))
    decreases |rows|
  {
    if rows != [] {
      SortSorted(rows[..|rows| - 1]);
      InsertSorted(SortByAverage(rows[..|rows| - 1]), rows[|rows| - 1]);
    }
  }

  /** Ties stay ordered when a row is put in front of rows it does not
      tie with out of order. */
  lemma TiesCons(head: AggregateRow, rest: seq<AggregateRow>, key: Model -> int)
    requires TiesOrderedBy(rest, key)
    requires forall z <- rest | z.averageRank == head.averageRank :: key(head.model) < key(z.model)
    ensures TiesOrderedBy([head] + rest, key)
  {
    var r := [head] + rest;
    forall i, j | 0 <= i < j < |r| && r[i].averageRank == r[j].averageRank
      ensures key(r[i].model) < key(r[j].model)
    {
      if i == 0 {
        assert r[j] == rest[j - 1] && r[j] in rest;
      } else {
        assert r[i] == rest[i - 1] && r[j] == rest[j - 1];
      }
    }
  }

  lemma {:induction false} InsertTies(sorted: seq<AggregateRow>, row: AggregateRow, key: Model -> int)
    requires SortedByAverage(sorted) && TiesOrderedBy(sorted, key)
    requires forall y <- sorted :: key(y.model) < key(row.model)
    ensures TiesOrderedBy(Insert(sorted, row), key)
    decreases |sorted|
  {
    if sorted == [] {
    } else if row.averageRank < sorted[0].averageRank {
      forall z <- sorted ensures z.averageRank != row.averageRank {
        var j :| 0 <= j < |sorted| && sorted[j] == z;
        assert sorted[0].averageRank <= sorted[j].averageRank;
      }
      TiesCons(row, sorted, key);
    } else {
      var rest := Insert(sorted[1..], row);
      TiesTail(sorted, key);
      InsertTies(sorted[1..], row, key);
      forall z <- rest | z.averageRank == sorted[0].averageRank
        ensures key(sorted[0].model) < key(z.model)
      {
        InsertFrom(sorted[1..], row, z);
        if z != row {
          var j :| 0 <= j < |sorted[1..]| && sorted[1..][j] == z;
          assert sorted[j + 1] == z;
        }
      }
      TiesCons(sorted[0], rest, key);
    }
  }

  /** The rows after the first keep their ties ordered. */
  lemma TiesTail(sorted: seq<AggregateRow>, key: Model -> int)
    requires sorted != [] && SortedByAverage(sorted) && TiesOrderedBy(sorted, key)
    ensures SortedByAverage(sorted[1..]) && TiesOrderedBy(sorted[1..], key)
  {
    forall i | 0 <= i < |sorted[1..]| ensures sorted[1..][i] == sorted[i + 1] {}
  }

  /** A row of an insertion is the inserted row or one that was there. */
  lemma InsertFrom(sorted: seq<AggregateRow>, row: AggregateRow, z: AggregateRow)
    requires z in Insert(sorted, row)
    ensures z == row || z in sorted
  {
    assert z in multiset(Insert(sorted, row));
  }

  /** Stability: when the rows come in increasing order of `key`, rows of
      equal average stay in that order after the sort. */
  lemma {:induction false} SortTies(rows: seq<AggregateRow>, key: Model -> int)
    requires forall i, j | 0 <= i < j < |rows| :: key(rows[i].model) < key(rows[j].model)
    ensures TiesOrderedBy(SortByAverage(rows), key)
    decreases |rows|
  {
    if rows != [] {
      var front := rows[..|rows| - 1];
      var last := rows[|rows| - 1];
      SortTies(front, key);
      SortSorted(front);
      forall y <- SortByAverage(front) ensures key(y.model) < key(last.model) {
        assert y in multiset(SortByAverage(front));
        var i :| 0 <= i < |front| && front[i] == y;
      }
      InsertTies(SortByAverage(front), last, key);
    }
  }

  lemma {:induction false} InsertDistinct(sorted: seq<AggregateRow>, row: AggregateRow)
    requires DistinctModels(sorted)
    requires forall y <- sorted :: y.model != row.model
    ensures DistinctModels(Insert(sorted, row))
    decreases |sorted|
  {
    if sorted != [] && row.averageRank >= sorted[0].averageRank {
      var rest := Insert(sorted[1..], row);
      InsertDistinct(sorted[1..], row);
      forall z <- rest ensures z.model != sorted[0].model {
        assert z in multiset(rest);
        if z != row {
          var j :| 0 <= j < |sorted[1..]| && sorted[1..][j] == z;
          assert sorted[j + 1] == z;
        }
      }
      var r := [sorted[0]] + rest;
      forall i, j | 0 <= i < j < |r| ensures r[i].model != r[j].model {
        if i == 0 {
          assert r[j] in rest;
        } else {
          assert r[i] == rest[i - 1] && r[j] == rest[j - 1];
        }
      }
    }
  }

  /** Sorting never gives a model a second row. */
  lemma {:induction false} SortDistinct(rows: seq<AggregateRow>)
    requires DistinctModels(rows)
    ensures DistinctModels(SortByAverage(rows))
    decreases |rows|
  {
    if rows != [] {
      var front := rows[..|rows| - 1];
      var last := rows[|rows| - 1];
      SortDistinct(front);
      forall y <- SortByAverage(front) ensures y.model != last.model {
        assert y in multiset(SortByAverage(front));
        var i :| 0 <= i < |front| && front[i] == y;
      }
      InsertDistinct(SortByAverage(front), last);
    }
  }

  /** Sorting only reorders: every sorted row is one of the input rows. */
  lemma SortedRowIn(rows: seq<AggregateRow>, r: AggregateRow)
    requires r in SortByAverage(rows)
    ensures r in rows
  {
    assert r in multiset(SortByAverage(rows));
  }

  /** The sorted rows name the same models as the unsorted ones. */
  lemma SortKeepsRows(rows: seq<AggregateRow>, m: Model)
    ensures (exists r <- SortByAverage(rows) :: r.model == m) <==> (exists k | 0 <= k < |rows| :: rows[k].model == m)
  {
    var sorted := SortByAverage(rows);
    if exists r <- sorted :: r.model == m {
      var r :| r in sorted && r.model == m;
      assert r in multiset(rows);
      var k :| 0 <= k < |rows| && rows[k] == r;
    }
    if exists k | 0 <= k < |rows| :: rows[k].model == m {
      var k :| 0 <= k < |rows| && rows[k].model == m;
      assert rows[k] in multiset(sorted);
    }
  }
}
