/**
 * How the two halves of the analytics path meet: a table the aggregation
 * returns, indexed by its dimension values, is a frame of the shape the
 * period comparison expects, with the known dimensions as merge columns and
 * the known metrics as base metrics.
 */
module Pipeline {
  import opened Frames
  import opened Services
  import Diffs

  /** A table's records indexed by their dimension values (a later record wins a shared key). */
  function IndexRows(rows: seq<Row>, kd: seq<string>): map<Diffs.Key, Row> {
    if rows == [] then map[]
    else
      var n := |rows| - 1;
      IndexRows(rows[..n], kd)[DimsOf(rows[n], kd) := rows[n]]
  }

  function AsFrame(t: Table, kd: seq<string>): Diffs.Frame {
    Diffs.Frame(t.cols, IndexRows(t.rows, kd))
  }

  /** Every indexed row is a record of the table, filed under its own dimension values. */
  lemma {:induction false} IndexRowsFrom(rows: seq<Row>, kd: seq<string>)
    ensures forall k :: k in IndexRows(rows, kd) ==>
              exists i :: 0 <= i < |rows| && k == DimsOf(rows[i], kd) && IndexRows(rows, kd)[k] == rows[i]
  {
    if rows != [] {
      var n := |rows| - 1;
      IndexRowsFrom(rows[..n], kd);
      var m := IndexRows(rows, kd);
      forall k | k in m
        ensures exists i :: 0 <= i < |rows| && k == DimsOf(rows[i], kd) && m[k] == rows[i]
      {
        if k == DimsOf(rows[n], kd) {
          assert m[k] == rows[n];
        } else {
          assert k in IndexRows(rows[..n], kd) && m[k] == IndexRows(rows[..n], kd)[k];
          var i :| 0 <= i < n && k == DimsOf(rows[..n][i], kd) && IndexRows(rows[..n], kd)[k] == rows[..n][i];
          assert rows[..n][i] == rows[i];
        }
      }
    }
  }

  /** With distinct dimension values no record is lost: each is found under its own key. */
  lemma {:induction false} IndexRowsKeep(rows: seq<Row>, kd: seq<string>)
    requires forall i, j :: 0 <= i < j < |rows| ==> DimsOf(rows[i], kd) != DimsOf(rows[j], kd)
    ensures forall i :: 0 <= i < |rows| ==> DimsOf(rows[i], kd) in IndexRows(rows, kd)
                                            && IndexRows(rows, kd)[DimsOf(rows[i], kd)] == rows[i]
  {
    if rows != [] {
      var n := |rows| - 1;
      var init := rows[..n];
      assert forall i, j :: 0 <= i < j < |init| ==> DimsOf(init[i], kd) != DimsOf(init[j], kd) by {
        forall i, j | 0 <= i < j < |init| ensures DimsOf(init[i], kd) != DimsOf(init[j], kd) {
          assert init[i] == rows[i] && init[j] == rows[j];
        }
      }
      IndexRowsKeep(init, kd);
      assert IndexRows(rows, kd) == IndexRows(init, kd)[DimsOf(rows[n], kd) := rows[n]];
      forall i | 0 <= i < n
        ensures DimsOf(rows[i], kd) in IndexRows(rows, kd) && IndexRows(rows, kd)[DimsOf(rows[i], kd)] == rows[i]
      {
        assert init[i] == rows[i];
        assert DimsOf(rows[i], kd) != DimsOf(rows[n], kd);
      }
    }
  }

  /** The registries' names are short, the derived comparison names long. */
  lemma NameLengths()
    ensures forall d :: d in DimensionMapping ==> |d| <= 8
    ensures forall m :: m in MetricMapping ==> 6 <= |m| <= 8
  {
  }

  /** A registered metric is no dimension, and its derived names are neither a metric nor a dimension. */
  lemma MetricNamesApart(m: string)
    requires m in MetricMapping
    ensures m !in DimensionMapping
    ensures Diffs.PrevName(m) !in MetricMapping && Diffs.DiffName(m) !in MetricMapping && Diffs.PctName(m) !in MetricMapping
    ensures Diffs.PrevName(m) !in DimensionMapping && Diffs.DiffName(m) !in DimensionMapping && Diffs.PctName(m) !in DimensionMapping
  {
    NameLengths();
    assert |Diffs.PrevName(m)| > 8 && |Diffs.DiffName(m)| > 8 && |Diffs.PctName(m)| > 8;
  }

  /** No derived comparison name of a known metric is a dimension or a metric name. */
  lemma ServiceNamesDisjoint(s: AnalyticsService)
    requires Initialised(s)
    ensures Diffs.NamesDisjoint(KnownDimensions(s.dimensions), s.dbAggregates.Keys)
  {
    var kd, base := KnownDimensions(s.dimensions), s.dbAggregates.Keys;
    forall m | m in base
      ensures m !in kd
      ensures Diffs.PrevName(m) !in base && Diffs.DiffName(m) !in base && Diffs.PctName(m) !in base
      ensures Diffs.PrevName(m) !in kd && Diffs.DiffName(m) !in kd && Diffs.PctName(m) !in kd
    {
      MetricNamesApart(m);
    }
  }

  /**
   * The table of an initialised service over a window holding some line,
   * indexed by dimension values,
   * has the shape `calculate_diffs` takes: the known dimensions as merge
   * columns and the known metrics as numeric metric columns (that the names do
   * not clash with the derived ones is `ServiceNamesDisjoint`). Amounts are
   * exact reals here; the program's sums are `Decimal` objects.
   */
  lemma TableIsComparable(s: AnalyticsService, items: seq<CartItem>, dateFrom: int, dateTo: int)
    requires Initialised(s) && |s.dbGroupFields| > 0
    requires exists i :: 0 <= i < |items| && InWindow(items[i], dateFrom, dateTo)
    ensures Diffs.WellFormed(AsFrame(GetDataFrame(s, items, dateFrom, dateTo), KnownDimensions(s.dimensions)),
                             KnownDimensions(s.dimensions), s.dbAggregates.Keys)
  {
    var t, kd, aggs := GetDataFrame(s, items, dateFrom, dateTo), KnownDimensions(s.dimensions), s.dbAggregates;
    TableNotEmpty(s, items, dateFrom, dateTo);
    IndexedWellFormed(t, kd, aggs);
  }

  /** A window holding some line gives a table with some record. */
  lemma TableNotEmpty(s: AnalyticsService, items: seq<CartItem>, dateFrom: int, dateTo: int)
    requires Initialised(s) && |s.dbGroupFields| > 0
    requires exists i :: 0 <= i < |items| && InWindow(items[i], dateFrom, dateTo)
    ensures GetDataFrame(s, items, dateFrom, dateTo).rows != []
  {
    var i :| 0 <= i < |items| && InWindow(items[i], dateFrom, dateTo);
    var w := Window(items, dateFrom, dateTo);
    assert multiset(items)[items[i]] > 0;
    assert items[i] in w;
    if |s.dbAggregates| > 0 {
      RecordsCoverWindow(s, items, dateFrom, dateTo);
    }
  }

  /** A table whose records all carry the dimension and metric columns, indexed, is a well-formed frame. */
  lemma IndexedWellFormed(t: Table, kd: seq<string>, aggs: map<string, Aggregate>)
    requires t.cols == AsSet(kd) + aggs.Keys
    requires forall i :: 0 <= i < |t.rows| ==> t.rows[i].Keys == AsSet(kd) + aggs.Keys
    requires forall i, m :: 0 <= i < |t.rows| && m in aggs ==> m in t.rows[i] && t.rows[i][m].Num?
    ensures Diffs.WellFormed(AsFrame(t, kd), kd, aggs.Keys)
  {
    var f := AsFrame(t, kd);
    IndexRowsFrom(t.rows, kd);
    forall k | k in f.rows
      ensures f.rows[k].Keys == f.cols
      ensures |k| == |kd|
      ensures forall i :: 0 <= i < |kd| ==> f.rows[k][kd[i]] == k[i]
      ensures forall m :: m in aggs.Keys ==> !f.rows[k][m].Str?
    {
      var j :| 0 <= j < |t.rows| && k == DimsOf(t.rows[j], kd) && f.rows[k] == t.rows[j];
      RowShape(t.rows[j], kd, aggs, k);
    }
    forall c ensures c in f.cols <==> c in kd || c in aggs.Keys {
      assert c in AsSet(kd) <==> c in kd;
    }
  }

  /** With a metric to sum, indexing loses no record of the table. */
  lemma TableIndexKeepsRecords(s: AnalyticsService, items: seq<CartItem>, dateFrom: int, dateTo: int)
    requires Initialised(s) && |s.dbGroupFields| > 0 && |s.dbAggregates| > 0
    ensures var t, kd := GetDataFrame(s, items, dateFrom, dateTo), KnownDimensions(s.dimensions);
            forall i :: 0 <= i < |t.rows| ==> DimsOf(t.rows[i], kd) in AsFrame(t, kd).rows
                                              && AsFrame(t, kd).rows[DimsOf(t.rows[i], kd)] == t.rows[i]
  {
    RecordsDistinct(s, items, dateFrom, dateTo);
    IndexRowsKeep(GetDataFrame(s, items, dateFrom, dateTo).rows, KnownDimensions(s.dimensions));
  }

  lemma RowShape(row: Row, kd: seq<string>, aggs: map<string, Aggregate>, k: Diffs.Key)
    requires row.Keys == AsSet(kd) + aggs.Keys && k == DimsOf(row, kd)
    requires forall m :: m in aggs ==> m in row && row[m].Num?
    ensures |k| == |kd|
    ensures forall i :: 0 <= i < |kd| ==> row[kd[i]] == k[i]
    ensures forall m :: m in aggs.Keys ==> !row[m].Str?
  {
    forall i | 0 <= i < |kd| ensures row[kd[i]] == k[i] {
      assert kd[i] in AsSet(kd);
    }
  }
}
