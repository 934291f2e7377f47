/**
 * `AnalyticsService`: the user's dimension and metric names are mapped to ORM
 * lookups and aggregates, the cart lines of a date window are grouped by the
 * looked-up values and summed, and the grouping columns are renamed back to
 * the user's dimension names.
 */
module Services {
  import opened Wrappers
  import opened Frames

  // ---------------------------------------------------------------------
  // The stored records.
  // ---------------------------------------------------------------------

  datatype Brand = Brand(name: string)

  /** A product's brand may be missing. */
  datatype Product = Product(name: string, brand: Option<Brand>)

  datatype Shop = Shop(name: string)

  datatype Receipt = Receipt(datetime: int, shop: Shop, totalPrice: real, marginPriceTotal: real, refund: bool)

  /** One line of a receipt; `datetime` is a point in time on one integer scale. */
  datatype CartItem = CartItem(receipt: Receipt, product: Product, price: real, originalPrice: real,
                               qty: real, totalPrice: real, marginPriceTotal: real, datetime: int)

  // ---------------------------------------------------------------------
  // The registries.
  // ---------------------------------------------------------------------

  /** An ORM lookup path a dimension groups by. */
  datatype Path = ProductName | BrandName | ShopName

  /** The column name the query gives a path's value. */
  function PathName(p: Path): string {
    match p
    case ProductName => "product__name"
    case BrandName => "product__brand__name"
    case ShopName => "receipt__shop__name"
  }

  /** The numeric field a metric sums. */
  datatype NumField = TotalPrice | MarginPriceTotal

  datatype Aggregate = Sum(field: NumField)

  const DimensionMapping: map<string, Path> := map["product" := ProductName, "brand" := BrandName, "shop" := ShopName]

  const MetricMapping: map<string, Aggregate> := map["turnover" := Sum(TotalPrice), "profit" := Sum(MarginPriceTotal)]

  /** Different paths have different column names, and no column name is a dimension name. */
  lemma PathNameInjective(p: Path, q: Path)
    ensures PathName(p) == PathName(q) ==> p == q
    ensures PathName(p) !in DimensionMapping && PathName(p) !in MetricMapping
  {
  }

  // ---------------------------------------------------------------------
  // `__init__`.
  // ---------------------------------------------------------------------

  /** The requested dimensions the registry knows, in request order. */
  function KnownDimensions(ds: seq<string>): (r: seq<string>)
    ensures forall d :: d in r <==> d in ds && d in DimensionMapping
    ensures |r| <= |ds|
  {
    if ds == [] then []
    else (if ds[0] in DimensionMapping then [ds[0]] else []) + KnownDimensions(ds[1..])
  }

  /** Filtering distributes over concatenation: order is kept and nothing is reordered across the cut. */
  lemma {:induction false} KnownDimensionsAppend(a: seq<string>, b: seq<string>)
    ensures KnownDimensions(a + b) == KnownDimensions(a) + KnownDimensions(b)
    decreases |a|
  {
    if a != [] {
      assert (a + b)[1..] == a[1..] + b;
      KnownDimensionsAppend(a[1..], b);
    } else {
      assert a + b == b;
    }
  }

  /** The paths of known dimensions, position by position. */
  function PathsOf(ks: seq<string>): (r: seq<Path>)
    requires forall k :: k in ks ==> k in DimensionMapping
  {
    seq(|ks|, i requires 0 <= i < |ks| => DimensionMapping[ks[i]])
  }

  lemma PathsOfCons(k: string, ks: seq<string>)
    requires k in DimensionMapping && forall x :: x in ks ==> x in DimensionMapping
    ensures PathsOf([k] + ks) == [DimensionMapping[k]] + PathsOf(ks)
  {
    var l, r := PathsOf([k] + ks), [DimensionMapping[k]] + PathsOf(ks);
    forall i | 0 <= i < |l| ensures l[i] == r[i] {
      if i > 0 { assert ([k] + ks)[i] == ks[i - 1]; }
    }
  }

  /**
   * `[DIMENSION_MAPPING[d] for d in dimensions if d in DIMENSION_MAPPING]`:
   * the known dimensions, in request order, mapped to their paths.
   */
  function GroupFields(ds: seq<string>): (r: seq<Path>)
    ensures r == PathsOf(KnownDimensions(ds))
  {
    if ds == [] then []
    else
      var rest := GroupFields(ds[1..]);
      if ds[0] in DimensionMapping then
        PathsOfCons(ds[0], KnownDimensions(ds[1..]));
        [DimensionMapping[ds[0]]] + rest
      else
        rest
  }

  /** `{m: METRIC_MAPPING[m] for m in metrics if m in METRIC_MAPPING}`. */
  function Aggregates(ms: seq<string>): (r: map<string, Aggregate>)
    ensures forall m :: m in r <==> m in ms && m in MetricMapping
    ensures forall m :: m in r ==> r[m] == MetricMapping[m]
  {
    map m | m in MetricMapping && m in ms :: MetricMapping[m]
  }

  /** `{v: k for k, v in DIMENSION_MAPPING.items() if k in dimensions}`, keyed by column name. */
  function ReverseMapping(ds: seq<string>): (rev: map<string, string>)
    ensures forall d :: d in DimensionMapping && d in ds ==>
              PathName(DimensionMapping[d]) in rev && rev[PathName(DimensionMapping[d])] == d
    ensures forall c :: c in rev ==> rev[c] in ds && rev[c] in DimensionMapping && PathName(DimensionMapping[rev[c]]) == c
    ensures Injective(rev)
  {
    forall d, e | d in DimensionMapping && e in DimensionMapping && PathName(DimensionMapping[d]) == PathName(DimensionMapping[e])
      ensures d == e
    {
      PathNameInjective(DimensionMapping[d], DimensionMapping[e]);
    }
    map d | d in DimensionMapping && d in ds :: PathName(DimensionMapping[d]) := d
  }

  /** The service as `__init__` leaves it. */
  datatype AnalyticsService = AnalyticsService(dimensions: seq<string>, metrics: seq<string>,
                                               dbGroupFields: seq<Path>, dbAggregates: map<string, Aggregate>)

  function NewAnalyticsService(dimensions: seq<string>, metrics: seq<string>): (s: AnalyticsService)
    ensures s.dimensions == dimensions && s.metrics == metrics
    ensures s.dbGroupFields == PathsOf(KnownDimensions(dimensions))
    ensures forall i :: 0 <= i < |s.dbGroupFields| ==>
              && PathName(s.dbGroupFields[i]) in ReverseMapping(dimensions)
              && ReverseMapping(dimensions)[PathName(s.dbGroupFields[i])] == KnownDimensions(dimensions)[i]
    ensures s.dbAggregates.Keys == set m | m in metrics && m in MetricMapping
  {
    AnalyticsService(dimensions, metrics, GroupFields(dimensions), Aggregates(metrics))
  }

  // ---------------------------------------------------------------------
  // `get_dataframe`.
  // ---------------------------------------------------------------------

  /** The value a line shows under a lookup path; a product without brand shows a missing cell. */
  function Lookup(p: Path, item: CartItem): Cell {
    match p
    case ProductName => Str(item.product.name)
    case BrandName => if item.product.brand.Some? then Str(item.product.brand.value.name) else Null
    case ShopName => Str(item.receipt.shop.name)
  }

  /** The tuple of looked-up values a line is grouped by. */
  function KeyOf(paths: seq<Path>, item: CartItem): (k: seq<Cell>)
    ensures |k| == |paths|
  {
    seq(|paths|, i requires 0 <= i < |paths| => Lookup(paths[i], item))
  }

  function FieldValue(f: NumField, item: CartItem): real {
    match f
    case TotalPrice => item.totalPrice
    case MarginPriceTotal => item.marginPriceTotal
  }

  /** `datetime__gte=date_from, datetime__lte=date_to`: both ends belong to the window. */
  predicate InWindow(item: CartItem, dateFrom: int, dateTo: int) {
    dateFrom <= item.datetime && item.datetime <= dateTo
  }

  /** The lines of the window, in stored order, each as often as it is stored. */
  function Window(items: seq<CartItem>, dateFrom: int, dateTo: int): (r: seq<CartItem>)
    ensures forall x :: multiset(r)[x] == if InWindow(x, dateFrom, dateTo) then multiset(items)[x] else 0
    ensures forall x :: x in r ==> InWindow(x, dateFrom, dateTo)
  {
    if items == [] then []
    else
      var init, last := items[..|items| - 1], items[|items| - 1];
      assert items == init + [last];
      var rest := Window(init, dateFrom, dateTo);
      if InWindow(last, dateFrom, dateTo) then rest + [last] else rest
  }

  /** `Sum(field)` over the lines whose key is `key`. */
  function GroupSum(lines: seq<CartItem>, paths: seq<Path>, key: seq<Cell>, f: NumField): real {
    if lines == [] then 0.0
    else
      var last := lines[|lines| - 1];
      GroupSum(lines[..|lines| - 1], paths, key, f) + (if KeyOf(paths, last) == key then FieldValue(f, last) else 0.0)
  }

  /** The sum of a field over all lines. */
  function Total(lines: seq<CartItem>, f: NumField): real {
    if lines == [] then 0.0 else Total(lines[..|lines| - 1], f) + FieldValue(f, lines[|lines| - 1])
  }

  /** Whether some line of `reps` has key `k`. */
  predicate HasKey(reps: seq<CartItem>, paths: seq<Path>, k: seq<Cell>) {
    exists x :: x in reps && KeyOf(paths, x) == k
  }

  /**
   * The first line of every group, in order of first appearance: one per
   * distinct key, and every line's key among them.
   */
  function Representatives(lines: seq<CartItem>, paths: seq<Path>): (reps: seq<CartItem>)
    ensures forall x :: x in reps ==> x in lines
    ensures forall l :: l in lines ==> HasKey(reps, paths, KeyOf(paths, l))
    ensures forall i, j :: 0 <= i < j < |reps| ==> KeyOf(paths, reps[i]) != KeyOf(paths, reps[j])
  {
    if lines == [] then []
    else
      var init, last := lines[..|lines| - 1], lines[|lines| - 1];
      assert lines == init + [last];
      var rest := Representatives(init, paths);
      if HasKey(rest, paths, KeyOf(paths, last)) then rest else rest + [last]
  }

  lemma PathNamesInjective()
    ensures forall p, q :: PathName(p) == PathName(q) ==> p == q
  {
    forall p, q ensures PathName(p) == PathName(q) ==> p == q {
      PathNameInjective(p, q);
    }
  }

  /** One record of the query: the looked-up value of each grouping path and the group's sum for each aggregate. */
  function RawRecord(paths: seq<Path>, aggs: map<string, Aggregate>, rep: CartItem, lines: seq<CartItem>): Row {
    PathNamesInjective();
    (map p | p in paths :: PathName(p) := Lookup(p, rep))
    + (map m | m in aggs :: Num(GroupSum(lines, paths, KeyOf(paths, rep), aggs[m].field)))
  }

  predicate Injective(rev: map<string, string>) {
    forall a, b :: a in rev && b in rev && rev[a] == rev[b] ==> a == b
  }

  /** `df.rename(columns=reverse_mapping)` on one record: a mapped column takes its new name, the others keep theirs. */
  function Rename(row: Row, rev: map<string, string>): Row
    requires Injective(rev)
  {
    (map c | c in row && c in rev :: rev[c] := row[c]) + (map c | c in row && c !in rev :: row[c])
  }

  /** The service exactly as `__init__` built it from its dimensions and metrics. */
  predicate Initialised(s: AnalyticsService) {
    s == NewAnalyticsService(s.dimensions, s.metrics)
  }

  /** The values a renamed record shows under the known dimensions, in request order. */
  function DimsOf(row: Row, kd: seq<string>): (k: seq<Cell>)
    ensures |k| == |kd|
  {
    seq(|kd|, i requires 0 <= i < |kd| => if kd[i] in row then row[kd[i]] else Null)
  }

  /** No name is both a dimension and a metric, and no column name of a path is either. */
  lemma RegistriesDisjoint()
    ensures forall m :: m in MetricMapping ==> m !in DimensionMapping
    ensures forall p :: PathName(p) !in MetricMapping && PathName(p) !in DimensionMapping
  {
    forall p ensures PathName(p) !in MetricMapping && PathName(p) !in DimensionMapping {
      PathNameInjective(p, p);
    }
  }

  /**
   * How the parts of an initialised service fit together: the i-th path is the
   * i-th known dimension's, the reverse mapping sends each path's column name
   * back to its dimension and knows no other column, and no metric name is a
   * dimension or a column name of a path.
   */
  predicate Fits(kd: seq<string>, paths: seq<Path>, aggs: map<string, Aggregate>, rev: map<string, string>) {
    && |paths| == |kd|
    && Injective(rev)
    && (forall i :: 0 <= i < |paths| ==> PathName(paths[i]) in rev && rev[PathName(paths[i])] == kd[i])
    && (forall c :: c in rev ==> exists i :: 0 <= i < |paths| && c == PathName(paths[i]))
    && (forall m :: m in aggs ==> m !in rev && m !in kd)
  }

  lemma InitialisedFits(s: AnalyticsService)
    requires Initialised(s)
    ensures Fits(KnownDimensions(s.dimensions), s.dbGroupFields, s.dbAggregates, ReverseMapping(s.dimensions))
  {
    var kd, paths, aggs, rev := KnownDimensions(s.dimensions), s.dbGroupFields, s.dbAggregates, ReverseMapping(s.dimensions);
    RegistriesDisjoint();
    forall c | c in rev ensures exists i :: 0 <= i < |paths| && c == PathName(paths[i]) {
      var d := rev[c];
      assert d in kd;
      var i :| 0 <= i < |kd| && kd[i] == d;
      assert c == PathName(paths[i]);
    }
  }

  lemma RenamedMetrics(kd: seq<string>, paths: seq<Path>, aggs: map<string, Aggregate>, rev: map<string, string>,
                       rep: CartItem, lines: seq<CartItem>)
    requires Fits(kd, paths, aggs, rev)
    ensures forall m :: m in aggs ==>
              && m in Rename(RawRecord(paths, aggs, rep, lines), rev)
              && Rename(RawRecord(paths, aggs, rep, lines), rev)[m]
                 == Num(GroupSum(lines, paths, KeyOf(paths, rep), aggs[m].field))
  {
    var raw := RawRecord(paths, aggs, rep, lines);
    assert forall m :: m in aggs ==> m in raw && m !in rev;
  }

  lemma RenamedDims(kd: seq<string>, paths: seq<Path>, aggs: map<string, Aggregate>, rev: map<string, string>,
                    rep: CartItem, lines: seq<CartItem>)
    requires Fits(kd, paths, aggs, rev)
    ensures DimsOf(Rename(RawRecord(paths, aggs, rep, lines), rev), kd) == KeyOf(paths, rep)
  {
    var raw := RawRecord(paths, aggs, rep, lines);
    var row := Rename(raw, rev);
    forall i | 0 <= i < |kd|
      ensures kd[i] in row && row[kd[i]] == Lookup(paths[i], rep)
    {
      var c := PathName(paths[i]);
      PathNamesInjective();
      assert c in raw && raw[c] == Lookup(paths[i], rep);
      assert kd[i] !in aggs;
    }
  }

  lemma RenamedKeysWithin(kd: seq<string>, paths: seq<Path>, aggs: map<string, Aggregate>, rev: map<string, string>,
                          rep: CartItem, lines: seq<CartItem>)
    requires Fits(kd, paths, aggs, rev)
    ensures forall c :: c in Rename(RawRecord(paths, aggs, rep, lines), rev) ==> c in AsSet(kd) + aggs.Keys
  {
    var raw := RawRecord(paths, aggs, rep, lines);
    var row := Rename(raw, rev);
    forall c | c in row ensures c in AsSet(kd) + aggs.Keys {
      if c !in aggs {
        var c' :| c' in raw && c' in rev && rev[c'] == c;
        var i :| 0 <= i < |paths| && c' == PathName(paths[i]);
      }
    }
  }

  lemma RenamedKeysCover(kd: seq<string>, paths: seq<Path>, aggs: map<string, Aggregate>, rev: map<string, string>,
                         rep: CartItem, lines: seq<CartItem>)
    requires Fits(kd, paths, aggs, rev)
    ensures forall c :: c in AsSet(kd) + aggs.Keys ==> c in Rename(RawRecord(paths, aggs, rep, lines), rev)
  {
    var raw := RawRecord(paths, aggs, rep, lines);
    var row := Rename(raw, rev);
    forall c | c in AsSet(kd) + aggs.Keys ensures c in row {
      if c in aggs {
        assert c in raw && c !in rev;
      } else {
        var i :| 0 <= i < |kd| && kd[i] == c;
        var p := PathName(paths[i]);
        assert p in raw && p in rev && rev[p] == c;
      }
    }
  }

  lemma RenamedKeys(kd: seq<string>, paths: seq<Path>, aggs: map<string, Aggregate>, rev: map<string, string>,
                    rep: CartItem, lines: seq<CartItem>)
    requires Fits(kd, paths, aggs, rev)
    ensures Rename(RawRecord(paths, aggs, rep, lines), rev).Keys == AsSet(kd) + aggs.Keys
  {
    RenamedKeysWithin(kd, paths, aggs, rev, rep, lines);
    RenamedKeysCover(kd, paths, aggs, rev, rep, lines);
  }

  /** A renamed record: the known dimensions hold the key of its representative line, each metric its group's sum. */
  lemma RenamedRecord(kd: seq<string>, paths: seq<Path>, aggs: map<string, Aggregate>, rev: map<string, string>,
                      rep: CartItem, lines: seq<CartItem>)
    requires Fits(kd, paths, aggs, rev)
    ensures var row := Rename(RawRecord(paths, aggs, rep, lines), rev);
            && row.Keys == AsSet(kd) + aggs.Keys
            && DimsOf(row, kd) == KeyOf(paths, rep)
            && forall m :: m in aggs ==> row[m] == Num(GroupSum(lines, paths, KeyOf(paths, rep), aggs[m].field))
  {
    RenamedMetrics(kd, paths, aggs, rev, rep, lines);
    RenamedDims(kd, paths, aggs, rev, rep, lines);
    RenamedKeys(kd, paths, aggs, rev, rep, lines);
  }

  /** `pd.DataFrame(list(queryset))` after the rename: its columns (none when there are no records) and its records. */
  datatype Table = Table(cols: set<string>, rows: seq<Row>)

  /** One renamed record per representative line. */
  function Records(paths: seq<Path>, aggs: map<string, Aggregate>, rev: map<string, string>,
                   reps: seq<CartItem>, lines: seq<CartItem>): (rows: seq<Row>)
    requires Injective(rev)
    ensures |rows| == |reps|
  {
    seq(|reps|, i requires 0 <= i < |reps| => Rename(RawRecord(paths, aggs, reps[i], lines), rev))
  }

  lemma RecordsFacts(kd: seq<string>, paths: seq<Path>, aggs: map<string, Aggregate>, rev: map<string, string>,
                     reps: seq<CartItem>, lines: seq<CartItem>)
    requires Fits(kd, paths, aggs, rev)
    ensures forall i :: 0 <= i < |reps| ==>
              && Records(paths, aggs, rev, reps, lines)[i].Keys == AsSet(kd) + aggs.Keys
              && DimsOf(Records(paths, aggs, rev, reps, lines)[i], kd) == KeyOf(paths, reps[i])
    ensures forall i, m :: 0 <= i < |reps| && m in aggs ==>
              Records(paths, aggs, rev, reps, lines)[i][m] == Num(GroupSum(lines, paths, KeyOf(paths, reps[i]), aggs[m].field))
  {
    var rows := Records(paths, aggs, rev, reps, lines);
    forall i | 0 <= i < |reps|
      ensures rows[i].Keys == AsSet(kd) + aggs.Keys
      ensures DimsOf(rows[i], kd) == KeyOf(paths, reps[i])
      ensures forall m :: m in aggs ==> rows[i][m] == Num(GroupSum(lines, paths, KeyOf(paths, reps[i]), aggs[m].field))
    {
      RenamedRecord(kd, paths, aggs, rev, reps[i], lines);
    }
  }

  /** The lines a table's records stand for: the window itself, or one line per group when a metric is summed. */
  function RecordLines(s: AnalyticsService, lines: seq<CartItem>): seq<CartItem> {
    if |s.dbAggregates| == 0 then lines else Representatives(lines, s.dbGroupFields)
  }

  /**
   * `get_dataframe(date_from, date_to)`: the lines of the inclusive window,
   * grouped by the looked-up values of the known dimensions (one record per
   * line when no metric is known), with each known metric summed per group,
   * and the grouping columns renamed to the dimension names. Every record
   * shows the key of some line of the window and, for each metric, the sum
   * over the window's lines with that key.
   */
  function GetDataFrame(s: AnalyticsService, items: seq<CartItem>, dateFrom: int, dateTo: int): (t: Table)
    requires Initialised(s) && |s.dbGroupFields| > 0
    ensures t.rows != [] ==> t.cols == AsSet(KnownDimensions(s.dimensions)) + s.dbAggregates.Keys
    ensures forall i :: 0 <= i < |t.rows| ==> t.rows[i].Keys == AsSet(KnownDimensions(s.dimensions)) + s.dbAggregates.Keys
    ensures |t.rows| == |RecordLines(s, Window(items, dateFrom, dateTo))|
    ensures |s.dbAggregates| == 0 ==> |t.rows| == |Window(items, dateFrom, dateTo)|
    ensures forall i :: 0 <= i < |t.rows| ==>
              DimsOf(t.rows[i], KnownDimensions(s.dimensions))
              == KeyOf(s.dbGroupFields, RecordLines(s, Window(items, dateFrom, dateTo))[i])
    ensures forall i, m :: 0 <= i < |t.rows| && m in s.dbAggregates ==>
              t.rows[i][m] == Num(GroupSum(Window(items, dateFrom, dateTo), s.dbGroupFields,
                                           DimsOf(t.rows[i], KnownDimensions(s.dimensions)), s.dbAggregates[m].field))
  {
    var kd, paths, aggs, rev := KnownDimensions(s.dimensions), s.dbGroupFields, s.dbAggregates, ReverseMapping(s.dimensions);
    var lines := Window(items, dateFrom, dateTo);
    var reps := RecordLines(s, lines);
    InitialisedFits(s);
    RecordsFacts(kd, paths, aggs, rev, reps, lines);
    var rows := Records(paths, aggs, rev, reps, lines);
    Table(if rows == [] then {} else AsSet(kd) + aggs.Keys, rows)
  }

  // ---------------------------------------------------------------------
  // Properties of the query.
  // ---------------------------------------------------------------------

  /** A window without lines gives a table without records and without columns. */
  lemma EmptyWindowEmptyTable(s: AnalyticsService, items: seq<CartItem>, dateFrom: int, dateTo: int)
    requires Initialised(s) && |s.dbGroupFields| > 0
    requires forall x :: x in items ==> !InWindow(x, dateFrom, dateTo)
    ensures GetDataFrame(s, items, dateFrom, dateTo) == Table({}, [])
  {
    WindowNone(items, dateFrom, dateTo);
    assert RecordLines(s, []) == [];
  }

  /** No line inside the window: the window is empty. */
  lemma {:induction false} WindowNone(items: seq<CartItem>, dateFrom: int, dateTo: int)
    requires forall x :: x in items ==> !InWindow(x, dateFrom, dateTo)
    ensures Window(items, dateFrom, dateTo) == []
  {
    if items != [] {
      var init := items[..|items| - 1];
      assert forall x :: x in init ==> x in items;
      assert items[|items| - 1] in items;
      WindowNone(init, dateFrom, dateTo);
    }
  }

  /** A line stamped exactly at either end of the window is part of it. */
  lemma WindowInclusive(items: seq<CartItem>, dateFrom: int, dateTo: int, x: CartItem)
    requires x in items && dateFrom <= dateTo
    requires x.datetime == dateFrom || x.datetime == dateTo
    ensures x in Window(items, dateFrom, dateTo)
  {
    assert multiset(items)[x] > 0;
    assert multiset(Window(items, dateFrom, dateTo))[x] > 0;
  }

  /** With a metric to sum, no two records of the table show the same key. */
  lemma RecordsDistinct(s: AnalyticsService, items: seq<CartItem>, dateFrom: int, dateTo: int)
    requires Initialised(s) && |s.dbGroupFields| > 0 && |s.dbAggregates| > 0
    ensures var t, kd := GetDataFrame(s, items, dateFrom, dateTo), KnownDimensions(s.dimensions);
            forall i, j :: 0 <= i < j < |t.rows| ==> DimsOf(t.rows[i], kd) != DimsOf(t.rows[j], kd)
  {
    var w := Window(items, dateFrom, dateTo);
    assert RecordLines(s, w) == Representatives(w, s.dbGroupFields);
  }

  /** With a metric to sum, the key of every line of the window is shown by some record. */
  lemma RecordsCoverWindow(s: AnalyticsService, items: seq<CartItem>, dateFrom: int, dateTo: int)
    requires Initialised(s) && |s.dbGroupFields| > 0 && |s.dbAggregates| > 0
    ensures var t, kd, w := GetDataFrame(s, items, dateFrom, dateTo), KnownDimensions(s.dimensions), Window(items, dateFrom, dateTo);
            forall l :: l in w ==> exists i :: 0 <= i < |t.rows| && DimsOf(t.rows[i], kd) == KeyOf(s.dbGroupFields, l)
  {
    var t, kd, w := GetDataFrame(s, items, dateFrom, dateTo), KnownDimensions(s.dimensions), Window(items, dateFrom, dateTo);
    var reps := Representatives(w, s.dbGroupFields);
    assert RecordLines(s, w) == reps;
    forall l | l in w ensures exists i :: 0 <= i < |t.rows| && DimsOf(t.rows[i], kd) == KeyOf(s.dbGroupFields, l) {
      assert HasKey(reps, s.dbGroupFields, KeyOf(s.dbGroupFields, l));
      var i :| 0 <= i < |reps| && KeyOf(s.dbGroupFields, reps[i]) == KeyOf(s.dbGroupFields, l);
      assert DimsOf(t.rows[i], kd) == KeyOf(s.dbGroupFields, reps[i]);
    }
  }

  /** Each record stands for a line of the window. */
  lemma RecordLinesWithin(s: AnalyticsService, lines: seq<CartItem>)
    ensures forall x :: x in RecordLines(s, lines) ==> x in lines
  {
  }

  /** Every record of the table shows the key of some line of the window. */
  lemma RecordsFromWindow(s: AnalyticsService, items: seq<CartItem>, dateFrom: int, dateTo: int)
    requires Initialised(s) && |s.dbGroupFields| > 0
    ensures var t, kd, w := GetDataFrame(s, items, dateFrom, dateTo), KnownDimensions(s.dimensions), Window(items, dateFrom, dateTo);
            forall i :: 0 <= i < |t.rows| ==> HasKey(w, s.dbGroupFields, DimsOf(t.rows[i], kd))
  {
    var t, kd, w := GetDataFrame(s, items, dateFrom, dateTo), KnownDimensions(s.dimensions), Window(items, dateFrom, dateTo);
    RecordLinesWithin(s, w);
    KeysFromLines(t.rows, kd, s.dbGroupFields, RecordLines(s, w), w);
  }

  lemma KeysFromLines(rows: seq<Row>, kd: seq<string>, paths: seq<Path>, reps: seq<CartItem>, lines: seq<CartItem>)
    requires |rows| == |reps|
    requires forall i :: 0 <= i < |rows| ==> DimsOf(rows[i], kd) == KeyOf(paths, reps[i])
    requires forall x :: x in reps ==> x in lines
    ensures forall i :: 0 <= i < |rows| ==> HasKey(lines, paths, DimsOf(rows[i], kd))
  {
    forall i | 0 <= i < |rows| ensures HasKey(lines, paths, DimsOf(rows[i], kd)) {
      assert reps[i] in reps;
    }
  }

  // ---------------------------------------------------------------------
  // Group sums partition the window.
  // ---------------------------------------------------------------------

  /** The sum of a metric column over a table's records (a record without the column adds 0). */
  function SumColumn(rows: seq<Row>, m: string): real {
    if rows == [] then 0.0
    else
      var last := rows[|rows| - 1];
      SumColumn(rows[..|rows| - 1], m) + (if m in last then Value(last[m]) else 0.0)
  }

  /** The group sums of a field, one per representative, added up. */
  function SumGroups(reps: seq<CartItem>, lines: seq<CartItem>, paths: seq<Path>, f: NumField): real {
    if reps == [] then 0.0
    else SumGroups(reps[..|reps| - 1], lines, paths, f) + GroupSum(lines, paths, KeyOf(paths, reps[|reps| - 1]), f)
  }

  /** `v` once for every representative whose key is `k`. */
  function Hits(reps: seq<CartItem>, paths: seq<Path>, k: seq<Cell>, v: real): real {
    if reps == [] then 0.0
    else Hits(reps[..|reps| - 1], paths, k, v) + (if KeyOf(paths, reps[|reps| - 1]) == k then v else 0.0)
  }

  /** No representative has the key: nothing is counted. */
  lemma {:induction false} HitsNone(reps: seq<CartItem>, paths: seq<Path>, k: seq<Cell>, v: real)
    requires !HasKey(reps, paths, k)
    ensures Hits(reps, paths, k, v) == 0.0
  {
    if reps != [] {
      var init := reps[..|reps| - 1];
      assert forall x :: x in init ==> x in reps;
      HitsNone(init, paths, k, v);
      assert reps[|reps| - 1] in reps;
    }
  }

  /** Exactly one representative has the key when the keys are distinct and the key occurs: `v` is counted once. */
  lemma {:induction false} HitsOnce(reps: seq<CartItem>, paths: seq<Path>, k: seq<Cell>, v: real)
    requires forall i, j :: 0 <= i < j < |reps| ==> KeyOf(paths, reps[i]) != KeyOf(paths, reps[j])
    requires HasKey(reps, paths, k)
    ensures Hits(reps, paths, k, v) == v
  {
    var n := |reps| - 1;
    var init, last := reps[..n], reps[n];
    if KeyOf(paths, last) == k {
      HitsNone(init, paths, k, v);
    } else {
      var x :| x in reps && KeyOf(paths, x) == k;
      var i :| 0 <= i < |reps| && reps[i] == x;
      assert i < n && init[i] == x;
      HitsOnce(init, paths, k, v);
    }
  }

  /** One more line adds its value to the group sum of every representative that shares its key. */
  lemma {:induction false} SumGroupsSnoc(reps: seq<CartItem>, lines: seq<CartItem>, l: CartItem, paths: seq<Path>, f: NumField)
    ensures SumGroups(reps, lines + [l], paths, f)
            == SumGroups(reps, lines, paths, f) + Hits(reps, paths, KeyOf(paths, l), FieldValue(f, l))
  {
    assert (lines + [l])[..|lines|] == lines;
    if reps != [] {
      SumGroupsSnoc(reps[..|reps| - 1], lines, l, paths, f);
    }
  }

  /**
   * Representatives with distinct keys that cover every line's key split the
   * lines into groups: the group sums add up to the total.
   */
  lemma {:induction false} PartitionSum(reps: seq<CartItem>, lines: seq<CartItem>, paths: seq<Path>, f: NumField)
    requires forall i, j :: 0 <= i < j < |reps| ==> KeyOf(paths, reps[i]) != KeyOf(paths, reps[j])
    requires forall l :: l in lines ==> HasKey(reps, paths, KeyOf(paths, l))
    ensures SumGroups(reps, lines, paths, f) == Total(lines, f)
  {
    if lines == [] {
      SumGroupsEmpty(reps, paths, f);
    } else {
      var init, last := lines[..|lines| - 1], lines[|lines| - 1];
      assert lines == init + [last];
      assert forall x :: x in init ==> x in lines;
      PartitionSum(reps, init, paths, f);
      SumGroupsSnoc(reps, init, last, paths, f);
      HitsOnce(reps, paths, KeyOf(paths, last), FieldValue(f, last));
    }
  }

  /** Over no lines every group sum is 0. */
  lemma {:induction false} SumGroupsEmpty(reps: seq<CartItem>, paths: seq<Path>, f: NumField)
    ensures SumGroups(reps, [], paths, f) == 0.0
  {
    if reps != [] {
      SumGroupsEmpty(reps[..|reps| - 1], paths, f);
    }
  }

  /** A column whose every record holds its group's sum adds up to the sum of the group sums. */
  lemma {:induction false} ColumnOfGroupSums(rows: seq<Row>, m: string, reps: seq<CartItem>, lines: seq<CartItem>, paths: seq<Path>, f: NumField)
    requires |rows| == |reps|
    requires forall i :: 0 <= i < |rows| ==> m in rows[i] && rows[i][m] == Num(GroupSum(lines, paths, KeyOf(paths, reps[i]), f))
    ensures SumColumn(rows, m) == SumGroups(reps, lines, paths, f)
  {
    if rows != [] {
      var n := |rows| - 1;
      ColumnOfGroupSums(rows[..n], m, reps[..n], lines, paths, f);
      assert rows[n][m] == Num(GroupSum(lines, paths, KeyOf(paths, reps[n]), f));
    }
  }

  /**
   * The partition property of the query: summing a metric column over all
   * records of the table gives the field's total over every line of the
   * window, because the groups neither overlap nor miss a line.
   */
  lemma MetricTotalsPartition(s: AnalyticsService, items: seq<CartItem>, dateFrom: int, dateTo: int, m: string)
    requires Initialised(s) && |s.dbGroupFields| > 0 && m in s.dbAggregates
    ensures SumColumn(GetDataFrame(s, items, dateFrom, dateTo).rows, m)
            == Total(Window(items, dateFrom, dateTo), s.dbAggregates[m].field)
  {
    var t, kd, w := GetDataFrame(s, items, dateFrom, dateTo), KnownDimensions(s.dimensions), Window(items, dateFrom, dateTo);
    var paths, f := s.dbGroupFields, s.dbAggregates[m].field;
    var reps := Representatives(w, paths);
    assert RecordLines(s, w) == reps;
    RecordCells(t.rows, kd, m, reps, w, paths, f);
    ColumnOfGroupSums(t.rows, m, reps, w, paths, f);
    PartitionSum(reps, w, paths, f);
  }

  lemma RecordCells(rows: seq<Row>, kd: seq<string>, m: string, reps: seq<CartItem>, lines: seq<CartItem>, paths: seq<Path>, f: NumField)
    requires |rows| == |reps|
    requires forall i :: 0 <= i < |rows| ==> DimsOf(rows[i], kd) == KeyOf(paths, reps[i])
    requires forall i :: 0 <= i < |rows| ==> m in rows[i] && rows[i][m] == Num(GroupSum(lines, paths, DimsOf(rows[i], kd), f))
    ensures forall i :: 0 <= i < |rows| ==> m in rows[i] && rows[i][m] == Num(GroupSum(lines, paths, KeyOf(paths, reps[i]), f))
  {
  }
}
