/** Sums over the values of a finite map, whatever order its keys are visited in. */
module Sums {
  ghost function Pick(keys: set<string>): (k: string)
    requires keys != {}
    ensures k in keys
  {
    var k :| k in keys; k
  }

  ghost function Total(m: map<string, int>): int
    decreases |m|
  {
    if m == map[] then 0
    else
      assert m.Keys != {};
      var k := Pick(m.Keys);
      m[k] + Total(m - {k})
  }

  lemma {:induction false} TotalSplit(m: map<string, int>, k: string)
    requires k in m
    ensures Total(m) == m[k] + Total(m - {k})
    decreases |m|
  {
    var j := Pick(m.Keys);
    if j != k {
      TotalSplit(m - {j}, k);
      TotalSplit(m - {k}, j);
      assert m - {j} - {k} == m - {k} - {j};
    }
  }

  /** Change one value. */
  lemma TotalUpdate(m: map<string, int>, k: string, v: int)
    requires k in m
    ensures Total(m[k := v]) == Total(m) - m[k] + v
  {
    TotalSplit(m, k);
    TotalSplit(m[k := v], k);
    assert m[k := v] - {k} == m - {k};
  }

  /** Add one key. */
  lemma TotalInsert(m: map<string, int>, k: string, v: int)
    requires k !in m
    ensures Total(m[k := v]) == Total(m) + v
  {
    TotalSplit(m[k := v], k);
    assert m[k := v] - {k} == m;
  }

  /** Keys that only carry 0 may be left out. */
  lemma {:induction false} TotalDrop(m: map<string, int>, kept: map<string, int>)
    requires forall k :: k in kept ==> k in m && kept[k] == m[k]
    requires forall k :: k in m && k !in kept ==> m[k] == 0
    ensures Total(m) == Total(kept)
    decreases |m|
  {
    if m != map[] {
      var k :| k in m;
      TotalSplit(m, k);
      if k in kept {
        TotalSplit(kept, k);
        TotalDrop(m - {k}, kept - {k});
      } else {
        TotalDrop(m - {k}, kept);
      }
    } else {
      assert kept == map[];
    }
  }

  lemma {:induction false} TotalOfSums(a: map<string, int>, b: map<string, int>, c: map<string, int>)
    requires a.Keys == b.Keys == c.Keys
    requires forall k :: k in c ==> c[k] == a[k] + b[k]
    ensures Total(c) == Total(a) + Total(b)
    decreases |c|
  {
    if c != map[] {
      var k :| k in c;
      TotalSplit(a, k);
      TotalSplit(b, k);
      TotalSplit(c, k);
      TotalOfSums(a - {k}, b - {k}, c - {k});
    } else {
      assert a == map[] && b == map[];
    }
  }

  /** Totals of values ordered key by key: ordered too, and equal only when every value is. */
  lemma {:induction false} TotalCompare(a: map<string, int>, b: map<string, int>)
    requires a.Keys == b.Keys
    requires forall k :: k in a ==> a[k] <= b[k]
    ensures Total(a) <= Total(b)
    ensures Total(a) == Total(b) <==> a == b
    decreases |a|
  {
    hide Total;
    if a == map[] {
      assert b == map[];
    } else {
      var k :| k in a;
      TotalSplit(a, k);
      TotalSplit(b, k);
      TotalCompare(a - {k}, b - {k});
      SameWithout(a, b, k);
    }
  }

  lemma SameWithout(a: map<string, int>, b: map<string, int>, k: string)
    requires k in a && k in b
    ensures a == b <==> a[k] == b[k] && a - {k} == b - {k}
  {
    if a[k] == b[k] && a - {k} == b - {k} {
      assert a == (a - {k})[k := a[k]] && b == (b - {k})[k := b[k]];
    }
  }

  lemma TotalZero(m: map<string, int>)
    requires forall k :: k in m ==> m[k] == 0
    ensures Total(m) == 0
  {
    TotalDrop(m, map[]);
  }

  // ---------- tables ----------

  ghost function Row(cell: (string, string) -> int, r: string, columns: set<string>): map<string, int> {
    map c | c in columns :: cell(r, c)
  }

  ghost function Column(cell: (string, string) -> int, rows: set<string>, c: string): map<string, int> {
    map r | r in rows :: cell(r, c)
  }

  ghost function RowTotals(cell: (string, string) -> int, rows: set<string>, columns: set<string>): map<string, int> {
    map r | r in rows :: Total(Row(cell, r, columns))
  }

  ghost function ColumnTotals(cell: (string, string) -> int, rows: set<string>, columns: set<string>)
    : map<string, int>
  {
    map c | c in columns :: Total(Column(cell, rows, c))
  }

  lemma ColumnSplit(cell: (string, string) -> int, rows: set<string>, r: string, c: string)
    requires r in rows
    ensures Total(Column(cell, rows, c)) == cell(r, c) + Total(Column(cell, rows - {r}, c))
  {
    TotalSplit(Column(cell, rows, c), r);
    assert Column(cell, rows, c) - {r} == Column(cell, rows - {r}, c);
  }

  /** Row by row or column by column: the same total. */
  lemma {:induction false} TotalSwap(cell: (string, string) -> int, rows: set<string>, columns: set<string>)
    ensures Total(RowTotals(cell, rows, columns)) == Total(ColumnTotals(cell, rows, columns))
    decreases |rows|
  {
    hide Total;
    if rows == {} {
      forall c | c in columns ensures Total(Column(cell, rows, c)) == 0 {
        TotalZero(Column(cell, rows, c));
      }
      TotalZero(ColumnTotals(cell, rows, columns));
      TotalZero(RowTotals(cell, rows, columns));
    } else {
      var r :| r in rows;
      var rest := rows - {r};
      forall c | c in columns
        ensures ColumnTotals(cell, rows, columns)[c] == Row(cell, r, columns)[c] + ColumnTotals(cell, rest, columns)[c]
      {
        ColumnSplit(cell, rows, r, c);
      }
      TotalOfSums(Row(cell, r, columns), ColumnTotals(cell, rest, columns), ColumnTotals(cell, rows, columns));
      TotalSplit(RowTotals(cell, rows, columns), r);
      assert RowTotals(cell, rows, columns) - {r} == RowTotals(cell, rest, columns);
      TotalSwap(cell, rest, columns);
    }
  }
}
