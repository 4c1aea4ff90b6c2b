/**
 Frequency tables of one column of a matrix: what `collections.Counter`
 builds from a column in `CountEncoder.fit`. A column is a sequence of cell
 values; its table maps every distinct value of the column to the number of
 rows that hold it.
 */
module Frequency {

  /** Reference definition: the number of rows of column `c` holding `v`. */
  ghost function Occurrences(c: seq<int>, v: int): nat
  {
    |set i | 0 <= i < |c| && c[i] == v|
  }

  /** Counting `v` in a column is counting it in all rows but the last, plus the last row. */
  lemma OccurrencesLast(c: seq<int>, v: int)
    requires |c| > 0
    ensures Occurrences(c, v) == Occurrences(c[..|c| - 1], v) + (if c[|c| - 1] == v then 1 else 0)
  {
    var n := |c| - 1;
    var p := c[..n];
    var all := set i | 0 <= i < |c| && c[i] == v;
    var front := set i | 0 <= i < |p| && p[i] == v;
    assert n !in front;
    if c[n] == v {
      assert all == front + {n};
    } else {
      assert all == front;
    }
  }

  /** No column holds a value in more rows than it has. */
  lemma {:induction false} OccurrencesAtMost(c: seq<int>, v: int)
    ensures Occurrences(c, v) <= |c|
    decreases |c|
  {
    if c != [] {
      OccurrencesLast(c, v);
      OccurrencesAtMost(c[..|c| - 1], v);
    }
  }

  /** A value of the column occurs in at least one row and in at most all of them. */
  lemma OccurrencesBounds(c: seq<int>, i: nat)
    requires i < |c|
    ensures 1 <= Occurrences(c, c[i]) <= |c|
  {
    var rows := set j | 0 <= j < |c| && c[j] == c[i];
    assert i in rows;
    OccurrencesAtMost(c, c[i]);
  }

  /** A non-empty set has a member (stated for the choices made below). */
  lemma HasMember(ks: set<int>)
    requires ks != {}
    ensures exists k :: k in ks
  {
    if forall k :: k !in ks {
      assert false;
    }
  }

  /** The table after one more row holding `v`: a new key counts 1, a known key one more. */
  function Bump(t: map<int, nat>, v: int): map<int, nat>
  {
    t[v := if v in t then t[v] + 1 else 1]
  }

  /**
   The frequency table of a column, built row by row in row order as
   `Counter` does: each row bumps the count of its value.
   */
  function FrequencyTable(c: seq<int>): map<int, nat>
    decreases |c|
  {
    if c == [] then map[] else Bump(FrequencyTable(c[..|c| - 1]), c[|c| - 1])
  }

  /** The keys of a column's table are exactly the values in the column. */
  lemma {:induction false} TableKeys(c: seq<int>)
    ensures forall v :: v in FrequencyTable(c) <==> v in c
    decreases |c|
  {
    if c != [] {
      var p := c[..|c| - 1];
      assert c == p + [c[|c| - 1]];
      TableKeys(p);
    }
  }

  /** Each key of a column's table maps to the number of rows holding it. */
  lemma {:induction false} TableCounts(c: seq<int>)
    ensures forall v :: v in FrequencyTable(c) ==> FrequencyTable(c)[v] == Occurrences(c, v)
    decreases |c|
  {
    if c != [] {
      var p := c[..|c| - 1];
      var v := c[|c| - 1];
      var t := FrequencyTable(p);
      TableCounts(p);
      TableKeys(p);
      forall w | w !in t ensures Occurrences(p, w) == 0 {
        assert (set i | 0 <= i < |p| && p[i] == w) == {};
      }
      forall w ensures Occurrences(c, w) == Occurrences(p, w) + (if v == w then 1 else 0) {
        OccurrencesLast(c, w);
      }
    }
  }

  /** A value that occurs in the column is a key of its table. */
  lemma {:induction false} TableHasValue(c: seq<int>, v: int)
    requires v in c
    ensures v in FrequencyTable(c)
  {
    TableKeys(c);
  }

  /** Counting one more row bumps that row's value in the table. */
  lemma TableSnoc(p: seq<int>, v: int)
    ensures FrequencyTable(p + [v]) == Bump(FrequencyTable(p), v)
  {
  }

  /** Every count in a fitted table is at least one and at most the number of rows. */
  lemma {:induction false} TableCountsBounded(c: seq<int>, v: int)
    requires v in FrequencyTable(c)
    ensures 1 <= FrequencyTable(c)[v] <= |c|
  {
    TableKeys(c);
    TableCounts(c);
    var i :| 0 <= i < |c| && c[i] == v;
    OccurrencesBounds(c, i);
  }

  /** Looking up the table of a column at one of its own cells gives the number of rows sharing that cell's value. */
  lemma CellCount(c: seq<int>, i: nat)
    requires i < |c|
    ensures c[i] in FrequencyTable(c)
    ensures FrequencyTable(c)[c[i]] == Occurrences(c, c[i])
    ensures 1 <= FrequencyTable(c)[c[i]] <= |c|
  {
    TableHasValue(c, c[i]);
    TableCounts(c);
    TableCountsBounded(c, c[i]);
  }

  /** The sum of the values that `t` holds for the keys `ks`. */
  ghost function SumOver(t: map<int, nat>, ks: set<int>): nat
    requires ks <= t.Keys
    decreases ks
  {
    if ks == {} then 0
    else
      HasMember(ks);
      var k :| k in ks;
      t[k] + SumOver(t, ks - {k})
  }

  /** The sum of all the counts of a table. */
  ghost function Total(t: map<int, nat>): nat
  {
    SumOver(t, t.Keys)
  }

  /** A sum over keys can take any key out first. */
  lemma {:induction false} SumOverRemove(t: map<int, nat>, ks: set<int>, v: int)
    requires ks <= t.Keys && v in ks
    ensures SumOver(t, ks) == t[v] + SumOver(t, ks - {v})
    decreases ks
  {
    var k :| k in ks && SumOver(t, ks) == t[k] + SumOver(t, ks - {k});
    if k != v {
      SumOverRemove(t, ks - {k}, v);
      SumOverRemove(t, ks - {v}, k);
      assert ks - {k} - {v} == ks - {v} - {k};
    }
  }

  /** A sum over keys reads only those keys. */
  lemma {:induction false} SumOverFrame(t: map<int, nat>, u: map<int, nat>, ks: set<int>)
    requires ks <= t.Keys && ks <= u.Keys
    requires forall k :: k in ks ==> t[k] == u[k]
    ensures SumOver(t, ks) == SumOver(u, ks)
    decreases ks
  {
    if ks != {} {
      HasMember(ks);
      var k :| k in ks && SumOver(t, ks) == t[k] + SumOver(t, ks - {k});
      SumOverRemove(u, ks, k);
      SumOverFrame(t, u, ks - {k});
    }
  }

  /** One more row adds one to the total of a table. */
  lemma BumpTotal(t: map<int, nat>, v: int)
    ensures Total(Bump(t, v)) == Total(t) + 1
  {
    var r := Bump(t, v);
    if v in t {
      assert r.Keys == t.Keys;
      SumOverRemove(r, r.Keys, v);
      SumOverRemove(t, t.Keys, v);
      SumOverFrame(r, t, t.Keys - {v});
    } else {
      SumOverRemove(r, r.Keys, v);
      assert r.Keys - {v} == t.Keys;
      SumOverFrame(r, t, t.Keys);
    }
  }

  /** The counts of a column's table add up to the number of rows. */
  lemma {:induction false} TableTotal(c: seq<int>)
    ensures Total(FrequencyTable(c)) == |c|
    decreases |c|
  {
    if c != [] {
      var p := c[..|c| - 1];
      TableTotal(p);
      BumpTotal(FrequencyTable(p), c[|c| - 1]);
    }
  }
}
