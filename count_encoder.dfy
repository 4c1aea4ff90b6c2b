/**
 The count (frequency) encoder. `Fit` learns one frequency table per column
 of a training matrix; `Transform` returns a copy of a matrix in which every
 cell is replaced by the count that its column's table holds for the cell's
 value. Matrices are two-dimensional integer arrays, as the numpy arrays the
 encoder works on.
 */
module CountEncoding {
  import opened Frequency

  /** Column `k` of `X`, top to bottom (`X[:, k]`). */
  ghost function Column(X: array2<int>, k: nat): seq<int>
    reads X
    requires k < X.Length1
  {
    seq(X.Length0, i reads X requires 0 <= i < X.Length0 => X[i, k])
  }

  /** The tables `fit` stores for `X`: one per column, in column order. */
  ghost function Tables(X: array2<int>): seq<map<int, nat>>
    reads X
  {
    seq(X.Length1, k reads X requires 0 <= k < X.Length1 => FrequencyTable(Column(X, k)))
  }

  /**
   `Y` has the shape of `X`, and each of its cells is the number of rows of
   `X` whose value in that column equals the cell's value in `X`: between one
   and the number of rows.
   */
  ghost predicate CountEncoded(X: array2<int>, Y: array2<int>)
    reads X, Y
  {
    && Y.Length0 == X.Length0 && Y.Length1 == X.Length1
    && forall i, k :: 0 <= i < X.Length0 && 0 <= k < X.Length1 ==>
         Y[i, k] == Occurrences(Column(X, k), X[i, k]) && 1 <= Y[i, k] <= X.Length0
  }

  /** Builds the frequency table of column `k` of `X` (`Counter(X[:, k])`), one row at a time. */
  method CountValues(X: array2<int>, k: nat) returns (t: map<int, nat>)
    requires k < X.Length1
    ensures t == FrequencyTable(Column(X, k))
  {
    ghost var c := Column(X, k);
    t := map[];
    for i := 0 to X.Length0
      invariant t == FrequencyTable(c[..i])
    {
      var v := X[i, k];
      assert c[..i + 1] == c[..i] + [v];
      TableSnoc(c[..i], v);
      t := Bump(t, v);
    }
    assert c[..X.Length0] == c;
  }

  class CountEncoder {
    /** The per-column frequency tables (`counters_`), in column order. */
    var counters: seq<map<int, nat>>
    /** Whether `counters_` exists, i.e. `fit` has run. */
    var fitted: bool

    constructor ()
      ensures !fitted && counters == []
    {
      counters := [];
      fitted := false;
    }

    /** Every value `transform` will look up in `X` is a key of its column's table. */
    ghost predicate Seen(X: array2<int>)
      reads this, X
    {
      forall i, k :: 0 <= i < X.Length0 && 0 <= k < X.Length1 && k < |counters| ==> X[i, k] in counters[k]
    }

    /**
     Learns one table per column of `X`. The new tables depend on `X` alone:
     whatever an earlier `Fit` stored is replaced, not merged into.
     */
    method Fit(X: array2<int>)
      modifies this
      ensures fitted
      ensures counters == Tables(X)
    {
      var perFeature: seq<map<int, nat>> := [];
      for k := 0 to X.Length1
        invariant |perFeature| == k
        invariant forall j :: 0 <= j < k ==> perFeature[j] == FrequencyTable(Column(X, j))
      {
        var t := CountValues(X, k);
        perFeature := perFeature + [t];
      }
      counters := perFeature;
      fitted := true;
    }

    /**
     Returns a fresh copy of `X` in which each column that has a table is
     rewritten to that table's counts. As `zip` stops at the shorter of the
     two, columns beyond the last table are copied unchanged (and tables
     beyond the last column are unused). `X` itself is not modified.
     */
    method Transform(X: array2<int>) returns (Y: array2<int>)
      requires fitted
      requires Seen(X)
      ensures fresh(Y)
      ensures Y.Length0 == X.Length0 && Y.Length1 == X.Length1
      ensures forall i, k :: 0 <= i < X.Length0 && 0 <= k < X.Length1 ==>
        Y[i, k] == if k < |counters| then counters[k][X[i, k]] else X[i, k]
    {
      Y := new int[X.Length0, X.Length1]((i, j) reads X requires 0 <= i < X.Length0 && 0 <= j < X.Length1 => X[i, j]);
      var n := if |counters| < X.Length1 then |counters| else X.Length1;
      for k := 0 to n
        invariant forall i, j :: 0 <= i < X.Length0 && 0 <= j < X.Length1 ==>
          Y[i, j] == if j < k then counters[j][X[i, j]] else X[i, j]
      {
        var counter := counters[k];
        forall i | 0 <= i < Y.Length0 {
          Y[i, k] := counter[Y[i, k]];
        }
      }
    }

    /**
     `fit(X)` then `transform(X)`: every cell becomes the number of rows of
     its column that share its value, a count between 1 and the number of rows.
     */
    method FitTransform(X: array2<int>) returns (Y: array2<int>)
      modifies this
      ensures fitted && counters == Tables(X)
      ensures fresh(Y)
      ensures Y.Length0 == X.Length0 && Y.Length1 == X.Length1
      ensures forall i, k :: 0 <= i < X.Length0 && 0 <= k < X.Length1 ==>
        X[i, k] in counters[k] && Y[i, k] == counters[k][X[i, k]]
      ensures CountEncoded(X, Y)
    {
      Fit(X);
      forall i, k | 0 <= i < X.Length0 && 0 <= k < X.Length1
        ensures X[i, k] in counters[k]
        ensures counters[k][X[i, k]] == Occurrences(Column(X, k), X[i, k])
        ensures 1 <= counters[k][X[i, k]] <= X.Length0
      {
        CellCount(Column(X, k), i);
      }
      Y := Transform(X);
    }
  }

  /** The smoke test at the end of the source module, as a checked example. */
  method Example() returns (Y: array2<int>)
    ensures Y.Length0 == 4 && Y.Length1 == 2
    ensures Y[0, 0] == 1 && Y[0, 1] == 1
    ensures Y[1, 0] == 3 && Y[1, 1] == 1
    ensures Y[2, 0] == 3 && Y[2, 1] == 2
    ensures Y[3, 0] == 3 && Y[3, 1] == 2
  {
    var X := new int[4, 2];
    X[0, 0], X[0, 1] := 0, 2;
    X[1, 0], X[1, 1] := 1, 3;
    X[2, 0], X[2, 1] := 1, 1;
    X[3, 0], X[3, 1] := 1, 1;
    ExampleFit(X);
    ghost var learned := Tables(X);
    var ce := new CountEncoder();
    Y := ce.FitTransform(X);
    assert ce.counters == learned;
  }

  /** What `fit` learns from the smoke-test matrix. */
  lemma ExampleFit(X: array2<int>)
    requires X.Length0 == 4 && X.Length1 == 2
    requires X[0, 0] == 0 && X[0, 1] == 2
    requires X[1, 0] == 1 && X[1, 1] == 3
    requires X[2, 0] == 1 && X[2, 1] == 1
    requires X[3, 0] == 1 && X[3, 1] == 1
    ensures Tables(X) == [map[0 := 1, 1 := 3], map[2 := 1, 3 := 1, 1 := 2]]
  {
    assert Column(X, 0) == [0, 1, 1, 1];
    assert Column(X, 1) == [2, 3, 1, 1];
    ExampleFirstColumn();
    ExampleSecondColumn();
  }

  /** The table fitted on the first column of the smoke-test matrix. */
  lemma ExampleFirstColumn()
    ensures FrequencyTable([0, 1, 1, 1]) == map[0 := 1, 1 := 3]
  {
    TableSnoc([], 0);
    assert [] + [0] == [0];
    assert FrequencyTable([0]) == map[0 := 1];
    TableSnoc([0], 1);
    assert [0] + [1] == [0, 1];
    assert FrequencyTable([0, 1]) == map[0 := 1, 1 := 1];
    TableSnoc([0, 1], 1);
    assert [0, 1] + [1] == [0, 1, 1];
    assert FrequencyTable([0, 1, 1]) == map[0 := 1, 1 := 2];
    TableSnoc([0, 1, 1], 1);
    assert [0, 1, 1] + [1] == [0, 1, 1, 1];
  }

  /** The table fitted on the second column of the smoke-test matrix. */
  lemma ExampleSecondColumn()
    ensures FrequencyTable([2, 3, 1, 1]) == map[2 := 1, 3 := 1, 1 := 2]
  {
    TableSnoc([], 2);
    assert [] + [2] == [2];
    assert FrequencyTable([2]) == map[2 := 1];
    TableSnoc([2], 3);
    assert [2] + [3] == [2, 3];
    assert FrequencyTable([2, 3]) == map[2 := 1, 3 := 1];
    TableSnoc([2, 3], 1);
    assert [2, 3] + [1] == [2, 3, 1];
    assert FrequencyTable([2, 3, 1]) == map[2 := 1, 3 := 1, 1 := 1];
    TableSnoc([2, 3, 1], 1);
    assert [2, 3, 1] + [1] == [2, 3, 1, 1];
  }
}
