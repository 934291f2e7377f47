/**
 * `calculate_diffs`: period-over-period comparison of two aggregated frames.
 * The previous period's metric columns are renamed `{m}_prev`, the two frames
 * are outer-joined on the grouping columns, missing cells become 0, and for
 * every base metric the `{m}_diff` and `{m}_diff_percent` columns are added
 * when they were requested.
 *
 * A frame is indexed by the tuple of its merge-column values, so each key
 * stands for one row; the reference meaning of the result is the map from key
 * to the pair (current value, previous value) with 0 for a missing side.
 */
module Diffs {
  import opened Frames
  import opened Rounding
  import opened Strings

  type Key = seq<Cell>

  /** A data frame: its column set and its rows, indexed by merge key. */
  datatype Frame = Frame(cols: set<string>, rows: map<Key, Row>)

  const PrevSuffix: string := "_prev"
  const DiffSuffix: string := "_diff"
  const PctSuffix: string := "_diff_percent"

  function PrevName(m: string): string { m + PrevSuffix }
  function DiffName(m: string): string { m + DiffSuffix }
  function PctName(m: string): string { m + PctSuffix }

  /** Each derived name carries its own suffix and none of the other two, and strips back to its metric. */
  lemma NameParts(m: string)
    ensures HasSuffix(PrevName(m), PrevSuffix) && StripSuffix(PrevName(m), PrevSuffix) == m
    ensures HasSuffix(DiffName(m), DiffSuffix) && StripSuffix(DiffName(m), DiffSuffix) == m
    ensures HasSuffix(PctName(m), PctSuffix) && StripSuffix(PctName(m), PctSuffix) == m
    ensures !HasSuffix(PrevName(m), DiffSuffix) && !HasSuffix(PrevName(m), PctSuffix)
    ensures !HasSuffix(DiffName(m), PrevSuffix) && !HasSuffix(DiffName(m), PctSuffix)
    ensures !HasSuffix(PctName(m), PrevSuffix) && !HasSuffix(PctName(m), DiffSuffix)
  {
    AppendThenStrip(m, PrevSuffix);
    AppendThenStrip(m, DiffSuffix);
    AppendThenStrip(m, PctSuffix);
    var p, d, q := PrevName(m), DiffName(m), PctName(m);
    assert p[|p| - 1] == 'v' && d[|d| - 1] == 'f' && q[|q| - 1] == 't';
  }

  /** Derived names of distinct metrics never coincide, and no two kinds of derived name coincide. */
  lemma DerivedNamesDistinct(a: string, b: string)
    ensures PrevName(a) != DiffName(b) && PrevName(a) != PctName(b) && DiffName(a) != PctName(b)
    ensures PrevName(a) == PrevName(b) ==> a == b
    ensures DiffName(a) == DiffName(b) ==> a == b
    ensures PctName(a) == PctName(b) ==> a == b
  {
    NameParts(a);
    NameParts(b);
  }

  function PrevNames(ms: set<string>): set<string> {
    set m | m in ms :: PrevName(m)
  }

  lemma PrevNamesParts(ms: set<string>)
    ensures forall c :: c in PrevNames(ms) ==> HasSuffix(c, PrevSuffix) && StripSuffix(c, PrevSuffix) in ms
  {
    forall c | c in PrevNames(ms)
      ensures HasSuffix(c, PrevSuffix) && StripSuffix(c, PrevSuffix) in ms
    {
      var m :| m in ms && c == PrevName(m);
      NameParts(m);
    }
  }

  predicate RowsHaveCols(f: Frame) {
    forall k :: k in f.rows ==> f.rows[k].Keys == f.cols
  }

  /**
   * The shape of a frame the aggregation returns: the merge columns and the
   * metric columns, the merge columns holding the row's key, every metric cell
   * a number or missing.
   */
  ghost predicate WellFormed(f: Frame, mergeOn: seq<string>, metrics: set<string>) {
    && (forall c :: c in f.cols <==> c in mergeOn || c in metrics)
    && RowsHaveCols(f)
    && forall k :: k in f.rows ==>
         && |k| == |mergeOn|
         && (forall i :: 0 <= i < |mergeOn| ==> f.rows[k][mergeOn[i]] == k[i])
         && (forall m :: m in metrics ==> !f.rows[k][m].Str?)
  }

  /** No column name is produced twice: merge columns, base metrics and derived names are all distinct. */
  predicate NamesDisjoint(mergeOn: seq<string>, base: set<string>) {
    && (forall m :: m in base ==> m !in mergeOn)
    && forall m :: m in base ==>
         && PrevName(m) !in base && DiffName(m) !in base && PctName(m) !in base
         && PrevName(m) !in mergeOn && DiffName(m) !in mergeOn && PctName(m) !in mergeOn
  }

  // ---------------------------------------------------------------------
  // The steps of calculate_diffs, one function per pandas operation.
  // ---------------------------------------------------------------------

  /** `df.rename(columns={m: f"{m}_prev" for m in base})` on one row. */
  function RenameRow(row: Row, base: set<string>): Row {
    PrevNamesParts(row.Keys * base);
    (map c | c in row.Keys - base :: row[c])
    + (map c | c in PrevNames(row.Keys * base) :: row[StripSuffix(c, PrevSuffix)])
  }

  function RenamePrev(f: Frame, base: set<string>): Frame {
    Frame((f.cols - base) + PrevNames(f.cols * base),
          map k | k in f.rows :: RenameRow(f.rows[k], base))
  }

  /**
   * `pd.merge(left, right, on=merge_on, how="outer")` for frames whose only
   * shared columns are the merge columns: a key from either side gives a row,
   * and the side without that key contributes missing cells.
   */
  function OuterMerge(left: Frame, right: Frame, mergeOn: seq<string>): Frame
    requires RowsHaveCols(left) && RowsHaveCols(right)
    requires forall c :: c in mergeOn ==> c in left.cols && c in right.cols
  {
    Frame(left.cols + right.cols,
          map k | k in left.rows.Keys + right.rows.Keys :: MergedRow(left, right, mergeOn, k))
  }

  function MergedRow(left: Frame, right: Frame, mergeOn: seq<string>, k: Key): Row
    requires RowsHaveCols(left) && RowsHaveCols(right)
    requires forall c :: c in mergeOn ==> c in left.cols && c in right.cols
    requires k in left.rows || k in right.rows
  {
    map c | c in left.cols + right.cols ::
      if c in mergeOn then (if k in left.rows then left.rows[k][c] else right.rows[k][c])
      else if c in left.cols then (if k in left.rows then left.rows[k][c] else Null)
      else (if k in right.rows then right.rows[k][c] else Null)
  }

  /** `df.fillna(0)`. */
  function FillNa(f: Frame): Frame {
    Frame(f.cols, map k | k in f.rows :: map c | c in f.rows[k] :: FillNull(f.rows[k][c]))
  }

  /** `numpy.nan_to_num((diff / prev) * 100, posinf=100, neginf=-100, nan=0)` over exact reals. */
  function SaturatedPercent(diff: real, prev: real): (r: real)
    ensures prev != 0.0 ==> r * prev == diff * 100.0
    ensures prev == 0.0 ==> (r == 100.0 <==> diff > 0.0) && (r == -100.0 <==> diff < 0.0) && (r == 0.0 <==> diff == 0.0)
  {
    if prev != 0.0 then diff / prev * 100.0
    else if diff > 0.0 then 100.0
    else if diff < 0.0 then -100.0
    else 0.0
  }

  /** `df[f"{b}_diff"] = (df[b] - df[f"{b}_prev"]).round(2)`. */
  function AddDiff(f: Frame, b: string): Frame
    requires RowsHaveCols(f) && b in f.cols && PrevName(b) in f.cols
  {
    Frame(f.cols + {DiffName(b)},
          map k | k in f.rows ::
            f.rows[k][DiffName(b) := Num(Round2(Value(f.rows[k][b]) - Value(f.rows[k][PrevName(b)])))])
  }

  /**
   * `df[f"{b}_diff_percent"] = ...`: the percentage change, from the `_diff`
   * column when the frame has one and from `b - b_prev` otherwise.
   */
  function AddPct(f: Frame, b: string): Frame
    requires RowsHaveCols(f) && b in f.cols && PrevName(b) in f.cols
  {
    Frame(f.cols + {PctName(b)},
          map k | k in f.rows :: f.rows[k][PctName(b) := Num(Round2(SaturatedPercent(
            if DiffName(b) in f.cols then Value(f.rows[k][DiffName(b)])
            else Value(f.rows[k][b]) - Value(f.rows[k][PrevName(b)]),
            Value(f.rows[k][PrevName(b)]))))])
  }

  /** One pass of the loop over `base_metrics`: the requested `_diff`, then the requested `_diff_percent` of `b`. */
  function HandleMetric(f: Frame, b: string, req: set<string>): Frame
    requires RowsHaveCols(f) && b in f.cols && PrevName(b) in f.cols
  {
    var g := if DiffName(b) in req then AddDiff(f, b) else f;
    assert RowsHaveCols(g) && b in g.cols && PrevName(b) in g.cols;
    if PctName(b) in req then AddPct(g, b) else g
  }

  // ---------------------------------------------------------------------
  // The reference meaning: key -> (current, previous), zero when missing.
  // ---------------------------------------------------------------------

  datatype Pair = Pair(curr: real, prev: real)

  /** The value of metric `m` for key `k` in one period's frame; 0 when the key or the value is missing. */
  function PeriodValue(f: Frame, k: Key, m: string): real {
    if k in f.rows && m in f.rows[k] then Value(f.rows[k][m]) else 0.0
  }

  /** The outer join of the two periods for one metric, with 0 for a missing side. */
  function Joined(curr: Frame, prev: Frame, m: string): (j: map<Key, Pair>)
    ensures j.Keys == curr.rows.Keys + prev.rows.Keys
  {
    map k | k in curr.rows.Keys + prev.rows.Keys :: Pair(PeriodValue(curr, k, m), PeriodValue(prev, k, m))
  }

  function DiffOf(p: Pair): real {
    Round2(p.curr - p.prev)
  }

  /** The `_diff_percent` value; `roundedDiff` says whether the `_diff` column was there to reuse. */
  function PctOf(p: Pair, roundedDiff: bool): real {
    Round2(SaturatedPercent(if roundedDiff then DiffOf(p) else p.curr - p.prev, p.prev))
  }

  /** A column of the result once the derived columns of `doneDiff` and `donePct` were added. */
  predicate IsResultCol(c: string, mergeOn: seq<string>, base: set<string>, req: set<string>,
                        doneDiff: set<string>, donePct: set<string>) {
    || c in mergeOn
    || c in base
    || (HasSuffix(c, PrevSuffix) && StripSuffix(c, PrevSuffix) in base)
    || (c in req && HasSuffix(c, DiffSuffix) && StripSuffix(c, DiffSuffix) in doneDiff)
    || (c in req && HasSuffix(c, PctSuffix) && StripSuffix(c, PctSuffix) in donePct)
  }

  /** What one result row holds for key `k`. */
  predicate ExpectedRow(row: Row, k: Key, curr: Frame, prev: Frame, mergeOn: seq<string>,
                        base: set<string>, req: set<string>,
                        doneDiff: set<string>, donePct: set<string>)
    requires |k| == |mergeOn|
  {
    && (forall i :: 0 <= i < |mergeOn| ==> mergeOn[i] in row && row[mergeOn[i]] == FillNull(k[i]))
    && (forall m :: m in base ==> m in row && row[m] == Num(PeriodValue(curr, k, m)))
    && (forall m :: m in base ==> PrevName(m) in row && row[PrevName(m)] == Num(PeriodValue(prev, k, m)))
    && (forall m :: m in doneDiff && DiffName(m) in req ==>
          DiffName(m) in row && row[DiffName(m)] == Num(DiffOf(Pair(PeriodValue(curr, k, m), PeriodValue(prev, k, m)))))
    && (forall m :: m in donePct && PctName(m) in req ==>
          PctName(m) in row
          && row[PctName(m)] == Num(PctOf(Pair(PeriodValue(curr, k, m), PeriodValue(prev, k, m)), DiffName(m) in req)))
  }

  /** The columns of the result once the metrics in `doneDiff`/`donePct` were handled. */
  ghost predicate ColsAre(f: Frame, mergeOn: seq<string>, base: set<string>, req: set<string>,
                          doneDiff: set<string>, donePct: set<string>)
  {
    forall c :: c in f.cols <==> IsResultCol(c, mergeOn, base, req, doneDiff, donePct)
  }

  /** Every row is what the reference says for its key. */
  ghost predicate RowsAre(f: Frame, curr: Frame, prev: Frame, mergeOn: seq<string>,
                          base: set<string>, req: set<string>,
                          doneDiff: set<string>, donePct: set<string>)
  {
    forall k :: k in f.rows ==>
      |k| == |mergeOn| && ExpectedRow(f.rows[k], k, curr, prev, mergeOn, base, req, doneDiff, donePct)
  }

  /** The state of calculate_diffs after the metrics in `doneDiff`/`donePct` were handled. */
  ghost predicate Progress(f: Frame, curr: Frame, prev: Frame, mergeOn: seq<string>,
                           base: set<string>, req: set<string>,
                           doneDiff: set<string>, donePct: set<string>)
  {
    && ColsAre(f, mergeOn, base, req, doneDiff, donePct)
    && f.rows.Keys == curr.rows.Keys + prev.rows.Keys
    && RowsHaveCols(f)
    && RowsAre(f, curr, prev, mergeOn, base, req, doneDiff, donePct)
  }

  predicate NoNulls(f: Frame) {
    forall k, c :: k in f.rows && c in f.rows[k] ==> !f.rows[k][c].Null?
  }
}
