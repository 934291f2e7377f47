/**
 * What `calculate_diffs` computes, proved about the step functions of `Diffs`:
 * every key of either period gets one row, missing sides count as 0, and the
 * derived columns exist exactly when requested and hold the rounded
 * difference and the saturated percentage change.
 */
module Comparison {
  import opened Frames
  import opened Rounding
  import opened Diffs
  import opened Strings

  /** Renamed columns are exactly the names that parse as `{m}_prev` for a renamed `m`. */
  lemma PrevNamesIff(ms: set<string>, c: string)
    ensures c in PrevNames(ms) <==> HasSuffix(c, PrevSuffix) && StripSuffix(c, PrevSuffix) in ms
  {
    PrevNamesParts(ms);
    if HasSuffix(c, PrevSuffix) && StripSuffix(c, PrevSuffix) in ms {
      StripThenAppend(c, PrevSuffix);
      assert PrevName(StripSuffix(c, PrevSuffix)) == c;
    }
  }

  /** Renaming one row: merge columns keep their cells and each base metric moves to `{m}_prev`. */
  lemma RenameRowFacts(row: Row, mergeOn: seq<string>, base: set<string>)
    requires forall c :: c in row <==> c in mergeOn || c in base
    requires NamesDisjoint(mergeOn, base)
    ensures forall c :: c in RenameRow(row, base) <==> c in mergeOn || c in PrevNames(base)
    ensures forall i :: 0 <= i < |mergeOn| ==> RenameRow(row, base)[mergeOn[i]] == row[mergeOn[i]]
    ensures forall m :: m in base ==> RenameRow(row, base)[PrevName(m)] == row[m]
  {
    assert row.Keys * base == base;
    PrevNamesParts(base);
    forall m | m in base ensures RenameRow(row, base)[PrevName(m)] == row[m] {
      NameParts(m);
    }
  }

  /** What renaming the previous period leaves: its keys and merge columns, and each metric `m` under `{m}_prev`. */
  ghost predicate RenamedFrom(r: Frame, prev: Frame, mergeOn: seq<string>, base: set<string>) {
    && RowsHaveCols(r)
    && r.rows.Keys == prev.rows.Keys
    && (forall c :: c in r.cols <==> c in mergeOn || c in PrevNames(base))
    && forall k :: k in prev.rows ==>
         && |k| == |mergeOn|
         && (forall i :: 0 <= i < |mergeOn| ==> mergeOn[i] in r.rows[k] && r.rows[k][mergeOn[i]] == k[i])
         && (forall m :: m in base ==> m in prev.rows[k] && PrevName(m) in r.rows[k]
                                       && r.rows[k][PrevName(m)] == prev.rows[k][m])
  }

  lemma RenamePrevShape(prev: Frame, mergeOn: seq<string>, base: set<string>)
    requires WellFormed(prev, mergeOn, base) && NamesDisjoint(mergeOn, base)
    ensures RenamedFrom(RenamePrev(prev, base), prev, mergeOn, base)
  {
    var r := RenamePrev(prev, base);
    assert r.rows.Keys == prev.rows.Keys;
    forall k | k in r.rows ensures r.rows[k].Keys == r.cols {
      RenamePrevRow(prev, mergeOn, base, k);
    }
    forall k | k in prev.rows
      ensures && |k| == |mergeOn|
              && (forall i :: 0 <= i < |mergeOn| ==> mergeOn[i] in r.rows[k] && r.rows[k][mergeOn[i]] == k[i])
              && (forall m :: m in base ==> m in prev.rows[k] && PrevName(m) in r.rows[k]
                                            && r.rows[k][PrevName(m)] == prev.rows[k][m])
    {
      RenamePrevRow(prev, mergeOn, base, k);
    }
    RenamePrevCols(prev, mergeOn, base);
  }

  lemma RenamePrevRow(prev: Frame, mergeOn: seq<string>, base: set<string>, k: Key)
    requires WellFormed(prev, mergeOn, base) && NamesDisjoint(mergeOn, base) && k in prev.rows
    ensures var r := RenamePrev(prev, base);
            && k in r.rows && r.rows[k].Keys == r.cols && |k| == |mergeOn|
            && (forall i :: 0 <= i < |mergeOn| ==> mergeOn[i] in r.rows[k] && r.rows[k][mergeOn[i]] == k[i])
            && (forall m :: m in base ==> m in prev.rows[k] && PrevName(m) in r.rows[k]
                                          && r.rows[k][PrevName(m)] == prev.rows[k][m])
  {
    var r := RenamePrev(prev, base);
    RenamePrevCols(prev, mergeOn, base);
    RenameRowFacts(prev.rows[k], mergeOn, base);
    assert r.rows[k] == RenameRow(prev.rows[k], base);
  }

  lemma RenamePrevCols(prev: Frame, mergeOn: seq<string>, base: set<string>)
    requires WellFormed(prev, mergeOn, base) && NamesDisjoint(mergeOn, base)
    ensures forall c :: c in RenamePrev(prev, base).cols <==> c in mergeOn || c in PrevNames(base)
  {
    assert prev.cols * base == base;
    PrevNamesParts(base);
  }

  /** A metric cell that is a number or missing reads, after `fillna(0)`, as its value. */
  lemma FillNullMetric(c: Cell)
    requires !c.Str?
    ensures FillNull(c) == Num(Value(c))
  {
  }

  /** The merge needs both sides to carry the merge columns; the renamed previous period does. */
  predicate MergeReady(left: Frame, right: Frame, mergeOn: seq<string>) {
    RowsHaveCols(left) && RowsHaveCols(right) && forall c :: c in mergeOn ==> c in left.cols && c in right.cols
  }

  /** One row of the outer merge: the key, and the current and previous cell of each metric (missing when that side lacks the key). */
  lemma MergedRowFacts(curr: Frame, prev: Frame, r: Frame, mergeOn: seq<string>, base: set<string>, k: Key)
    requires WellFormed(curr, mergeOn, base) && WellFormed(prev, mergeOn, base) && NamesDisjoint(mergeOn, base)
    requires RenamedFrom(r, prev, mergeOn, base)
    requires k in curr.rows || k in prev.rows
    ensures MergeReady(curr, r, mergeOn)
    ensures |k| == |mergeOn|
    ensures MergedRow(curr, r, mergeOn, k).Keys == curr.cols + r.cols
    ensures forall i :: 0 <= i < |mergeOn| ==> MergedRow(curr, r, mergeOn, k)[mergeOn[i]] == k[i]
    ensures forall m :: m in base ==>
              && !MergedRow(curr, r, mergeOn, k)[m].Str?
              && Value(MergedRow(curr, r, mergeOn, k)[m]) == PeriodValue(curr, k, m)
    ensures forall m :: m in base ==>
              && !MergedRow(curr, r, mergeOn, k)[PrevName(m)].Str?
              && Value(MergedRow(curr, r, mergeOn, k)[PrevName(m)]) == PeriodValue(prev, k, m)
  {
    var row := MergedRow(curr, r, mergeOn, k);
    forall m | m in base
      ensures !row[PrevName(m)].Str? && Value(row[PrevName(m)]) == PeriodValue(prev, k, m)
    {
      PrevNamesIff(base, PrevName(m));
      NameParts(m);
    }
  }

  lemma FillNaRow(f: Frame, k: Key)
    requires k in f.rows
    ensures FillNa(f).rows[k].Keys == f.rows[k].Keys
    ensures forall c :: c in f.rows[k] ==> FillNa(f).rows[k][c] == FillNull(f.rows[k][c])
  {
  }

  /** After `fillna(0)`, each merged row is what the reference says with no derived column added yet. */
  lemma InitialRow(curr: Frame, prev: Frame, r: Frame, mergeOn: seq<string>, base: set<string>, req: set<string>, k: Key)
    requires WellFormed(curr, mergeOn, base) && WellFormed(prev, mergeOn, base) && NamesDisjoint(mergeOn, base)
    requires RenamedFrom(r, prev, mergeOn, base)
    requires k in curr.rows || k in prev.rows
    ensures MergeReady(curr, r, mergeOn)
    ensures |k| == |mergeOn|
    ensures FillNa(OuterMerge(curr, r, mergeOn)).rows[k].Keys == curr.cols + r.cols
    ensures ExpectedRow(FillNa(OuterMerge(curr, r, mergeOn)).rows[k], k, curr, prev, mergeOn, base, req, {}, {})
  {
    MergedRowFacts(curr, prev, r, mergeOn, base, k);
    var m0 := OuterMerge(curr, r, mergeOn);
    var row := MergedRow(curr, r, mergeOn, k);
    assert m0.rows[k] == row;
    FillNaRow(m0, k);
    var frow := FillNa(m0).rows[k];
    forall m | m in base
      ensures frow[m] == Num(PeriodValue(curr, k, m))
      ensures frow[PrevName(m)] == Num(PeriodValue(prev, k, m))
    {
      FillNullMetric(row[m]);
      FillNullMetric(row[PrevName(m)]);
    }
  }

  lemma InitialRows(curr: Frame, prev: Frame, r: Frame, mergeOn: seq<string>, base: set<string>, req: set<string>)
    requires WellFormed(curr, mergeOn, base) && WellFormed(prev, mergeOn, base) && NamesDisjoint(mergeOn, base)
    requires RenamedFrom(r, prev, mergeOn, base)
    ensures MergeReady(curr, r, mergeOn)
    ensures forall k :: k in FillNa(OuterMerge(curr, r, mergeOn)).rows ==>
              && FillNa(OuterMerge(curr, r, mergeOn)).rows[k].Keys == curr.cols + r.cols
              && |k| == |mergeOn|
              && ExpectedRow(FillNa(OuterMerge(curr, r, mergeOn)).rows[k], k, curr, prev, mergeOn, base, req, {}, {})
  {
    var f := FillNa(OuterMerge(curr, r, mergeOn));
    forall k | k in f.rows
      ensures f.rows[k].Keys == curr.cols + r.cols
      ensures |k| == |mergeOn| && ExpectedRow(f.rows[k], k, curr, prev, mergeOn, base, req, {}, {})
    {
      InitialRow(curr, prev, r, mergeOn, base, req, k);
    }
  }

  /** Merging the current period with a renamed previous period and filling gives the starting state. */
  lemma InitialState(curr: Frame, prev: Frame, r: Frame, mergeOn: seq<string>, base: set<string>, req: set<string>)
    requires WellFormed(curr, mergeOn, base) && WellFormed(prev, mergeOn, base) && NamesDisjoint(mergeOn, base)
    requires RenamedFrom(r, prev, mergeOn, base)
    ensures MergeReady(curr, r, mergeOn)
    ensures Progress(FillNa(OuterMerge(curr, r, mergeOn)), curr, prev, mergeOn, base, req, {}, {})
  {
    var m0 := OuterMerge(curr, r, mergeOn);
    var f := FillNa(m0);
    forall c ensures c in f.cols <==> IsResultCol(c, mergeOn, base, req, {}, {}) {
      PrevNamesIff(base, c);
    }
    assert f.rows.Keys == curr.rows.Keys + prev.rows.Keys;
    InitialRows(curr, prev, r, mergeOn, base, req);
  }

  /** Renaming, merging and filling give the starting state: every key of either period, no derived column yet. */
  lemma InitialProgress(curr: Frame, prev: Frame, mergeOn: seq<string>, base: set<string>, req: set<string>)
    requires WellFormed(curr, mergeOn, base) && WellFormed(prev, mergeOn, base) && NamesDisjoint(mergeOn, base)
    ensures MergeReady(curr, RenamePrev(prev, base), mergeOn)
    ensures Progress(FillNa(OuterMerge(curr, RenamePrev(prev, base), mergeOn)), curr, prev, mergeOn, base, req, {}, {})
  {
    RenamePrevShape(prev, mergeOn, base);
    InitialState(curr, prev, RenamePrev(prev, base), mergeOn, base, req);
  }

  // ---------------------------------------------------------------------
  // One step of the loop over the base metrics.
  // ---------------------------------------------------------------------

  /** Handling `b`'s `_diff` adds the column `{b}_diff` when it was requested and nothing otherwise. */
  lemma ColsAfterDiff(c: string, mergeOn: seq<string>, base: set<string>, req: set<string>,
                      dd: set<string>, dp: set<string>, b: string)
    ensures IsResultCol(c, mergeOn, base, req, dd + {b}, dp)
            <==> IsResultCol(c, mergeOn, base, req, dd, dp) || (c == DiffName(b) && c in req)
  {
    NameParts(b);
    if HasSuffix(c, DiffSuffix) && StripSuffix(c, DiffSuffix) == b {
      StripThenAppend(c, DiffSuffix);
    }
  }

  /** Handling `b`'s `_diff_percent` adds the column `{b}_diff_percent` when it was requested and nothing otherwise. */
  lemma ColsAfterPct(c: string, mergeOn: seq<string>, base: set<string>, req: set<string>,
                     dd: set<string>, dp: set<string>, b: string)
    ensures IsResultCol(c, mergeOn, base, req, dd, dp + {b})
            <==> IsResultCol(c, mergeOn, base, req, dd, dp) || (c == PctName(b) && c in req)
  {
    NameParts(b);
    if HasSuffix(c, PctSuffix) && StripSuffix(c, PctSuffix) == b {
      StripThenAppend(c, PctSuffix);
    }
  }

  lemma DiffStepCols(f: Frame, rows: map<Key, Row>, mergeOn: seq<string>, base: set<string>, req: set<string>,
                     dd: set<string>, dp: set<string>, b: string)
    requires DiffName(b) in req
    requires ColsAre(f, mergeOn, base, req, dd, dp)
    ensures ColsAre(Frame(f.cols + {DiffName(b)}, rows), mergeOn, base, req, dd + {b}, dp)
  {
    var cols := f.cols;
    forall c ensures c in cols + {DiffName(b)} <==> IsResultCol(c, mergeOn, base, req, dd + {b}, dp) {
      ColsAfterDiff(c, mergeOn, base, req, dd, dp, b);
    }
  }

  lemma PctStepCols(f: Frame, rows: map<Key, Row>, mergeOn: seq<string>, base: set<string>, req: set<string>,
                    dd: set<string>, dp: set<string>, b: string)
    requires PctName(b) in req
    requires ColsAre(f, mergeOn, base, req, dd, dp)
    ensures ColsAre(Frame(f.cols + {PctName(b)}, rows), mergeOn, base, req, dd, dp + {b})
  {
    var cols := f.cols;
    forall c ensures c in cols + {PctName(b)} <==> IsResultCol(c, mergeOn, base, req, dd, dp + {b}) {
      ColsAfterPct(c, mergeOn, base, req, dd, dp, b);
    }
  }

  /** The `_diff` column of `b` is present exactly when it was requested and `b` was handled. */
  lemma DiffColumnPresent(mergeOn: seq<string>, base: set<string>, req: set<string>,
                          dd: set<string>, dp: set<string>, b: string)
    requires NamesDisjoint(mergeOn, base) && b in base
    ensures IsResultCol(DiffName(b), mergeOn, base, req, dd, dp) <==> DiffName(b) in req && b in dd
  {
    NameParts(b);
  }

  /** Setting `{b}_diff` on a row keeps every cell the reference already fixed and adds the rounded difference. */
  lemma DiffRow(row: Row, k: Key, curr: Frame, prev: Frame, mergeOn: seq<string>, base: set<string>,
                req: set<string>, dd: set<string>, dp: set<string>, b: string)
    requires NamesDisjoint(mergeOn, base) && b in base
    requires |k| == |mergeOn| && ExpectedRow(row, k, curr, prev, mergeOn, base, req, dd, dp)
    ensures ExpectedRow(row[DiffName(b) := Num(Round2(Value(row[b]) - Value(row[PrevName(b)])))],
                        k, curr, prev, mergeOn, base, req, dd + {b}, dp)
  {
    var row' := row[DiffName(b) := Num(Round2(Value(row[b]) - Value(row[PrevName(b)])))];
    forall m | m in base
      ensures PrevName(m) != DiffName(b) && m != DiffName(b)
    {
      DerivedNamesDistinct(m, b);
    }
    forall m | m in dd + {b} && DiffName(m) in req
      ensures DiffName(m) in row'
      ensures row'[DiffName(m)] == Num(DiffOf(Pair(PeriodValue(curr, k, m), PeriodValue(prev, k, m))))
    {
      DerivedNamesDistinct(m, b);
    }
    forall m | m in dp && PctName(m) in req
      ensures PctName(m) in row' && row'[PctName(m)] == row[PctName(m)]
    {
      DerivedNamesDistinct(b, m);
    }
  }

  /**
   * Setting `{b}_diff_percent` on a row keeps every cell the reference already
   * fixed and adds the saturated percentage, from the `_diff` cell when `useDiff`.
   */
  lemma PctRow(row: Row, k: Key, curr: Frame, prev: Frame, mergeOn: seq<string>, base: set<string>,
               req: set<string>, dd: set<string>, dp: set<string>, b: string, useDiff: bool)
    requires NamesDisjoint(mergeOn, base) && b in base && b in dd
    requires |k| == |mergeOn| && ExpectedRow(row, k, curr, prev, mergeOn, base, req, dd, dp)
    requires useDiff <==> DiffName(b) in req
    ensures ExpectedRow(row[PctName(b) := Num(Round2(SaturatedPercent(
                          if useDiff then Value(row[DiffName(b)]) else Value(row[b]) - Value(row[PrevName(b)]),
                          Value(row[PrevName(b)]))))],
                        k, curr, prev, mergeOn, base, req, dd, dp + {b})
  {
    var row' := row[PctName(b) := Num(Round2(SaturatedPercent(
                  if useDiff then Value(row[DiffName(b)]) else Value(row[b]) - Value(row[PrevName(b)]),
                  Value(row[PrevName(b)]))))];
    forall m | m in base
      ensures PrevName(m) != PctName(b) && m != PctName(b)
    {
      DerivedNamesDistinct(m, b);
    }
    forall m | m in dd && DiffName(m) in req
      ensures DiffName(m) in row' && row'[DiffName(m)] == row[DiffName(m)]
    {
      DerivedNamesDistinct(m, b);
    }
    forall m | m in dp + {b} && PctName(m) in req
      ensures PctName(m) in row'
      ensures row'[PctName(m)] == Num(PctOf(Pair(PeriodValue(curr, k, m), PeriodValue(prev, k, m)), DiffName(m) in req))
    {
      DerivedNamesDistinct(m, b);
    }
  }

  /** One row of `AddDiff`: the previous row with the rounded difference of `b` added. */
  lemma AddDiffRow(f: Frame, curr: Frame, prev: Frame, mergeOn: seq<string>, base: set<string>,
                   req: set<string>, dd: set<string>, dp: set<string>, b: string, k: Key)
    requires NamesDisjoint(mergeOn, base) && b in base
    requires RowsHaveCols(f) && b in f.cols && PrevName(b) in f.cols
    requires k in f.rows && |k| == |mergeOn| && ExpectedRow(f.rows[k], k, curr, prev, mergeOn, base, req, dd, dp)
    ensures AddDiff(f, b).rows[k].Keys == AddDiff(f, b).cols
    ensures ExpectedRow(AddDiff(f, b).rows[k], k, curr, prev, mergeOn, base, req, dd + {b}, dp)
  {
    var row := f.rows[k];
    assert AddDiff(f, b).rows[k] == row[DiffName(b) := Num(Round2(Value(row[b]) - Value(row[PrevName(b)])))];
    DiffRow(row, k, curr, prev, mergeOn, base, req, dd, dp, b);
  }

  lemma DiffStepRows(f: Frame, curr: Frame, prev: Frame, mergeOn: seq<string>, base: set<string>,
                    req: set<string>, dd: set<string>, dp: set<string>, b: string)
    requires NamesDisjoint(mergeOn, base) && b in base && DiffName(b) in req
    requires RowsHaveCols(f) && b in f.cols && PrevName(b) in f.cols
    requires RowsAre(f, curr, prev, mergeOn, base, req, dd, dp)
    ensures AddDiff(f, b).rows.Keys == f.rows.Keys
    ensures RowsHaveCols(AddDiff(f, b))
    ensures RowsAre(AddDiff(f, b), curr, prev, mergeOn, base, req, dd + {b}, dp)
  {
    var g := AddDiff(f, b);
    forall k | k in g.rows
      ensures g.rows[k].Keys == g.cols
      ensures |k| == |mergeOn| && ExpectedRow(g.rows[k], k, curr, prev, mergeOn, base, req, dd + {b}, dp)
    {
      AddDiffRow(f, curr, prev, mergeOn, base, req, dd, dp, b, k);
    }
  }

  /** Adding a requested `{b}_diff` column moves the frame to the next state. */
  lemma DiffStep(f: Frame, curr: Frame, prev: Frame, mergeOn: seq<string>, base: set<string>,
                 req: set<string>, dd: set<string>, dp: set<string>, b: string)
    requires NamesDisjoint(mergeOn, base) && b in base && DiffName(b) in req
    requires Progress(f, curr, prev, mergeOn, base, req, dd, dp)
    ensures RowsHaveCols(f) && b in f.cols && PrevName(b) in f.cols
    ensures Progress(AddDiff(f, b), curr, prev, mergeOn, base, req, dd + {b}, dp)
  {
    NameParts(b);
    var g := AddDiff(f, b);
    DiffStepCols(f, g.rows, mergeOn, base, req, dd, dp, b);
    DiffStepRows(f, curr, prev, mergeOn, base, req, dd, dp, b);
  }

  /** Not adding an unrequested `{b}_diff` column also moves the frame to the next state. */
  lemma SkipDiff(f: Frame, curr: Frame, prev: Frame, mergeOn: seq<string>, base: set<string>,
                 req: set<string>, dd: set<string>, dp: set<string>, b: string)
    requires DiffName(b) !in req
    requires Progress(f, curr, prev, mergeOn, base, req, dd, dp)
    ensures Progress(f, curr, prev, mergeOn, base, req, dd + {b}, dp)
  {
    forall c ensures c in f.cols <==> IsResultCol(c, mergeOn, base, req, dd + {b}, dp) {
      ColsAfterDiff(c, mergeOn, base, req, dd, dp, b);
    }
    forall k | k in f.rows
      ensures ExpectedRow(f.rows[k], k, curr, prev, mergeOn, base, req, dd + {b}, dp)
    {
    }
  }

  /** One row of `AddPct`: the previous row with the saturated percentage of `b` added. */
  lemma AddPctRow(f: Frame, curr: Frame, prev: Frame, mergeOn: seq<string>, base: set<string>,
                  req: set<string>, dd: set<string>, dp: set<string>, b: string, k: Key)
    requires NamesDisjoint(mergeOn, base) && b in base && b in dd
    requires RowsHaveCols(f) && b in f.cols && PrevName(b) in f.cols
    requires DiffName(b) in f.cols <==> DiffName(b) in req
    requires k in f.rows && |k| == |mergeOn| && ExpectedRow(f.rows[k], k, curr, prev, mergeOn, base, req, dd, dp)
    ensures AddPct(f, b).rows[k].Keys == AddPct(f, b).cols
    ensures ExpectedRow(AddPct(f, b).rows[k], k, curr, prev, mergeOn, base, req, dd, dp + {b})
  {
    var row := f.rows[k];
    var useDiff := DiffName(b) in f.cols;
    assert AddPct(f, b).rows[k] == row[PctName(b) := Num(Round2(SaturatedPercent(
                                     if useDiff then Value(row[DiffName(b)]) else Value(row[b]) - Value(row[PrevName(b)]),
                                     Value(row[PrevName(b)]))))];
    PctRow(row, k, curr, prev, mergeOn, base, req, dd, dp, b, useDiff);
  }

  lemma PctStepRows(f: Frame, curr: Frame, prev: Frame, mergeOn: seq<string>, base: set<string>,
                    req: set<string>, dd: set<string>, dp: set<string>, b: string)
    requires NamesDisjoint(mergeOn, base) && b in base && b in dd && PctName(b) in req
    requires RowsHaveCols(f) && b in f.cols && PrevName(b) in f.cols
    requires DiffName(b) in f.cols <==> DiffName(b) in req
    requires RowsAre(f, curr, prev, mergeOn, base, req, dd, dp)
    ensures AddPct(f, b).rows.Keys == f.rows.Keys
    ensures RowsHaveCols(AddPct(f, b))
    ensures RowsAre(AddPct(f, b), curr, prev, mergeOn, base, req, dd, dp + {b})
  {
    var g := AddPct(f, b);
    forall k | k in g.rows
      ensures g.rows[k].Keys == g.cols
      ensures |k| == |mergeOn| && ExpectedRow(g.rows[k], k, curr, prev, mergeOn, base, req, dd, dp + {b})
    {
      AddPctRow(f, curr, prev, mergeOn, base, req, dd, dp, b, k);
    }
  }

  /** Adding a requested `{b}_diff_percent` column, once `b`'s `_diff` was handled, moves the frame to the next state. */
  lemma PctStep(f: Frame, curr: Frame, prev: Frame, mergeOn: seq<string>, base: set<string>,
                req: set<string>, dd: set<string>, dp: set<string>, b: string)
    requires NamesDisjoint(mergeOn, base) && b in base && b in dd && PctName(b) in req
    requires Progress(f, curr, prev, mergeOn, base, req, dd, dp)
    ensures RowsHaveCols(f) && b in f.cols && PrevName(b) in f.cols
    ensures Progress(AddPct(f, b), curr, prev, mergeOn, base, req, dd, dp + {b})
  {
    NameParts(b);
    DiffColumnPresent(mergeOn, base, req, dd, dp, b);
    var g := AddPct(f, b);
    PctStepCols(f, g.rows, mergeOn, base, req, dd, dp, b);
    PctStepRows(f, curr, prev, mergeOn, base, req, dd, dp, b);
  }

  /** Not adding an unrequested `{b}_diff_percent` column also moves the frame to the next state. */
  lemma SkipPct(f: Frame, curr: Frame, prev: Frame, mergeOn: seq<string>, base: set<string>,
                req: set<string>, dd: set<string>, dp: set<string>, b: string)
    requires PctName(b) !in req
    requires Progress(f, curr, prev, mergeOn, base, req, dd, dp)
    ensures Progress(f, curr, prev, mergeOn, base, req, dd, dp + {b})
  {
    forall c ensures c in f.cols <==> IsResultCol(c, mergeOn, base, req, dd, dp + {b}) {
      ColsAfterPct(c, mergeOn, base, req, dd, dp, b);
    }
    forall k | k in f.rows
      ensures ExpectedRow(f.rows[k], k, curr, prev, mergeOn, base, req, dd, dp + {b})
    {
    }
  }

  // ---------------------------------------------------------------------
  // The whole operation.
  // ---------------------------------------------------------------------

  /** A row holding every column of the finished result has no missing cell. */
  lemma RowNoNulls(row: Row, k: Key, curr: Frame, prev: Frame, mergeOn: seq<string>, base: set<string>, req: set<string>)
    requires |k| == |mergeOn| && ExpectedRow(row, k, curr, prev, mergeOn, base, req, base, base)
    requires forall c :: c in row ==> IsResultCol(c, mergeOn, base, req, base, base)
    ensures forall c :: c in row ==> !row[c].Null?
  {
    forall c | c in row ensures !row[c].Null? {
      if c in mergeOn {
        var i :| 0 <= i < |mergeOn| && mergeOn[i] == c;
      } else if c in base {
      } else if HasSuffix(c, PrevSuffix) && StripSuffix(c, PrevSuffix) in base {
        StripThenAppend(c, PrevSuffix);
      } else if HasSuffix(c, DiffSuffix) && StripSuffix(c, DiffSuffix) in base {
        StripThenAppend(c, DiffSuffix);
      } else {
        StripThenAppend(c, PctSuffix);
      }
    }
  }

  /** Once every metric was handled, no cell is missing. */
  lemma ProgressNoNulls(f: Frame, curr: Frame, prev: Frame, mergeOn: seq<string>, base: set<string>, req: set<string>)
    requires Progress(f, curr, prev, mergeOn, base, req, base, base)
    ensures NoNulls(f)
  {
    forall k | k in f.rows ensures forall c :: c in f.rows[k] ==> !f.rows[k][c].Null? {
      RowNoNulls(f.rows[k], k, curr, prev, mergeOn, base, req);
    }
  }

  /** `fillna(0)` changes nothing in a frame without missing cells. */
  lemma FillNaNoop(f: Frame)
    requires NoNulls(f)
    ensures FillNa(f) == f
  {
    forall k | k in f.rows ensures FillNa(f).rows[k] == f.rows[k] {
      FillNaRow(f, k);
    }
  }

  /** One pass of the loop moves the frame from "metrics in `done` handled" to "`done` and `b` handled". */
  lemma HandleMetricStep(f: Frame, curr: Frame, prev: Frame, mergeOn: seq<string>, base: set<string>,
                         req: set<string>, done: set<string>, b: string)
    requires NamesDisjoint(mergeOn, base) && b in base
    requires Progress(f, curr, prev, mergeOn, base, req, done, done)
    ensures RowsHaveCols(f) && b in f.cols && PrevName(b) in f.cols
    ensures Progress(HandleMetric(f, b, req), curr, prev, mergeOn, base, req, done + {b}, done + {b})
  {
    NameParts(b);
    var g := f;
    if DiffName(b) in req {
      DiffStep(f, curr, prev, mergeOn, base, req, done, done, b);
      g := AddDiff(f, b);
    } else {
      SkipDiff(f, curr, prev, mergeOn, base, req, done, done, b);
    }
    if PctName(b) in req {
      PctStep(g, curr, prev, mergeOn, base, req, done + {b}, done, b);
    } else {
      SkipPct(g, curr, prev, mergeOn, base, req, done + {b}, done, b);
    }
  }

  /** The finished frame has no missing cell, so the final `fillna(0)` leaves it as it is. */
  lemma FinishedFilled(f: Frame, curr: Frame, prev: Frame, mergeOn: seq<string>, base: set<string>, req: set<string>)
    requires Progress(f, curr, prev, mergeOn, base, req, base, base)
    ensures NoNulls(f) && FillNa(f) == f
  {
    ProgressNoNulls(f, curr, prev, mergeOn, base, req);
    FillNaNoop(f);
  }

  /** In the finished frame a base metric has a `_diff` or `_diff_percent` column exactly when it was requested. */
  lemma FinishedDerivedCols(f: Frame, curr: Frame, prev: Frame, mergeOn: seq<string>, base: set<string>, requested: seq<string>)
    requires NamesDisjoint(mergeOn, base)
    requires Progress(f, curr, prev, mergeOn, base, AsSet(requested), base, base)
    ensures forall m :: m in base ==> (DiffName(m) in f.cols <==> DiffName(m) in requested)
    ensures forall m :: m in base ==> (PctName(m) in f.cols <==> PctName(m) in requested)
  {
    forall m | m in base
      ensures DiffName(m) in f.cols <==> DiffName(m) in requested
      ensures PctName(m) in f.cols <==> PctName(m) in requested
    {
      DiffColumnPresent(mergeOn, base, AsSet(requested), base, base, m);
      NameParts(m);
    }
  }

  /** A key that one period lacks reads 0 for that period's metrics. */
  lemma FinishedZeros(f: Frame, curr: Frame, prev: Frame, mergeOn: seq<string>, base: set<string>, req: set<string>)
    requires Progress(f, curr, prev, mergeOn, base, req, base, base)
    ensures forall k, m :: k in f.rows && k !in prev.rows && m in base ==>
              PrevName(m) in f.rows[k] && f.rows[k][PrevName(m)] == Num(0.0)
    ensures forall k, m :: k in f.rows && k !in curr.rows && m in base ==>
              m in f.rows[k] && f.rows[k][m] == Num(0.0)
  {
    forall k, m | k in f.rows && m in base
      ensures k !in prev.rows ==> PrevName(m) in f.rows[k] && f.rows[k][PrevName(m)] == Num(0.0)
      ensures k !in curr.rows ==> m in f.rows[k] && f.rows[k][m] == Num(0.0)
    {
      RowZeros(f.rows[k], k, curr, prev, mergeOn, base, req, m);
    }
  }

  lemma RowZeros(row: Row, k: Key, curr: Frame, prev: Frame, mergeOn: seq<string>, base: set<string>, req: set<string>, m: string)
    requires |k| == |mergeOn| && ExpectedRow(row, k, curr, prev, mergeOn, base, req, base, base) && m in base
    ensures k !in prev.rows ==> PrevName(m) in row && row[PrevName(m)] == Num(0.0)
    ensures k !in curr.rows ==> m in row && row[m] == Num(0.0)
  {
  }

  /** Each finished row holds, for every base metric, the joined pair of its key. */
  lemma FinishedJoined(f: Frame, curr: Frame, prev: Frame, mergeOn: seq<string>, base: set<string>, req: set<string>)
    requires Progress(f, curr, prev, mergeOn, base, req, base, base)
    ensures forall k, m :: k in f.rows && m in base ==>
              m in f.rows[k] && PrevName(m) in f.rows[k] && k in Joined(curr, prev, m) &&
              Pair(Value(f.rows[k][m]), Value(f.rows[k][PrevName(m)])) == Joined(curr, prev, m)[k]
  {
    forall k, m | k in f.rows && m in base
      ensures m in f.rows[k] && PrevName(m) in f.rows[k] && k in Joined(curr, prev, m)
      ensures Pair(Value(f.rows[k][m]), Value(f.rows[k][PrevName(m)])) == Joined(curr, prev, m)[k]
    {
      RowJoined(f.rows[k], k, curr, prev, mergeOn, base, req, m);
    }
  }

  lemma RowJoined(row: Row, k: Key, curr: Frame, prev: Frame, mergeOn: seq<string>, base: set<string>, req: set<string>, m: string)
    requires |k| == |mergeOn| && ExpectedRow(row, k, curr, prev, mergeOn, base, req, base, base) && m in base
    requires k in curr.rows || k in prev.rows
    ensures m in row && PrevName(m) in row && k in Joined(curr, prev, m)
    ensures Pair(Value(row[m]), Value(row[PrevName(m)])) == Joined(curr, prev, m)[k]
  {
  }

  /**
   * `calculate_diffs(df_curr, df_prev, merge_on, base_metrics, requested_metrics)`.
   * One row per key of either period; for every base metric the current value,
   * the previous value (0 where that period has no row for the key), and the
   * requested `_diff` / `_diff_percent` columns; nothing else, and no missing cell.
   */
  method CalculateDiffs(curr: Frame, prev: Frame, mergeOn: seq<string>, base: set<string>, requested: seq<string>)
    returns (out: Frame)
    requires WellFormed(curr, mergeOn, base) && WellFormed(prev, mergeOn, base)
    requires NamesDisjoint(mergeOn, base)
    ensures out.rows.Keys == curr.rows.Keys + prev.rows.Keys
    ensures forall c :: c in out.cols <==> IsResultCol(c, mergeOn, base, AsSet(requested), base, base)
    ensures forall m :: m in base ==> (DiffName(m) in out.cols <==> DiffName(m) in requested)
    ensures forall m :: m in base ==> (PctName(m) in out.cols <==> PctName(m) in requested)
    ensures RowsHaveCols(out)
    ensures forall k :: k in out.rows ==>
              |k| == |mergeOn| && ExpectedRow(out.rows[k], k, curr, prev, mergeOn, base, AsSet(requested), base, base)
    ensures forall k, m :: k in out.rows && k !in prev.rows && m in base ==>
              PrevName(m) in out.rows[k] && out.rows[k][PrevName(m)] == Num(0.0)
    ensures forall k, m :: k in out.rows && k !in curr.rows && m in base ==>
              m in out.rows[k] && out.rows[k][m] == Num(0.0)
    ensures forall k, m :: k in out.rows && m in base ==>
              m in out.rows[k] && PrevName(m) in out.rows[k] && k in Joined(curr, prev, m) &&
              Pair(Value(out.rows[k][m]), Value(out.rows[k][PrevName(m)])) == Joined(curr, prev, m)[k]
    ensures NoNulls(out)
  {
    var req := AsSet(requested);
    InitialProgress(curr, prev, mergeOn, base, req);
    var f := FillNa(OuterMerge(curr, RenamePrev(prev, base), mergeOn));
    var remaining, done := base, {};
    while remaining != {}
      invariant done + remaining == base && done !! remaining
      invariant Progress(f, curr, prev, mergeOn, base, req, done, done)
      decreases remaining
    {
      var b :| b in remaining;
      HandleMetricStep(f, curr, prev, mergeOn, base, req, done, b);
      f := HandleMetric(f, b, req);
      done, remaining := done + {b}, remaining - {b};
    }
    assert done == base;
    FinishedFilled(f, curr, prev, mergeOn, base, req);
    FinishedDerivedCols(f, curr, prev, mergeOn, base, requested);
    FinishedZeros(f, curr, prev, mergeOn, base, req);
    FinishedJoined(f, curr, prev, mergeOn, base, req);
    out := FillNa(f);
  }

  // ---------------------------------------------------------------------
  // Properties of the per-key values.
  // ---------------------------------------------------------------------

  lemma Round2Whole(x: real, n: int)
    requires x == n as real
    ensures Round2(x) == x
  {
    Round2Exact(n * 100);
    assert (n * 100) as real / 100.0 == x;
  }

  /**
   * The percentage change: within rounding of `diff / prev * 100` when the
   * previous value is non-zero; otherwise +100, -100 or 0 according to the sign
   * of the difference (the rounded one when the `_diff` column was there).
   */
  lemma PercentCases(p: Pair, roundedDiff: bool)
    ensures var d := if roundedDiff then DiffOf(p) else p.curr - p.prev;
            && (p.prev != 0.0 ==> -0.005 <= PctOf(p, roundedDiff) - d / p.prev * 100.0 <= 0.005)
            && (p.prev == 0.0 && d > 0.0 ==> PctOf(p, roundedDiff) == 100.0)
            && (p.prev == 0.0 && d < 0.0 ==> PctOf(p, roundedDiff) == -100.0)
            && (p.prev == 0.0 && d == 0.0 ==> PctOf(p, roundedDiff) == 0.0)
  {
    Round2Whole(100.0, 100);
    Round2Whole(-100.0, -100);
    Round2Whole(0.0, 0);
  }

  /** With no previous value the percentage is always one of +100, -100 and 0. */
  lemma PercentWithoutPrevious(p: Pair, roundedDiff: bool)
    requires p.prev == 0.0
    ensures PctOf(p, roundedDiff) in {100.0, -100.0, 0.0}
  {
    PercentCases(p, roundedDiff);
  }

  /** Swapping the periods negates the rounded difference. */
  lemma DiffAntisymmetric(p: Pair)
    ensures DiffOf(Pair(p.prev, p.curr)) == -DiffOf(p)
  {
    Round2Negate(p.curr - p.prev);
    assert p.prev - p.curr == -(p.curr - p.prev);
  }

  /** The rounded difference has the sign of the change. */
  lemma DiffSign(p: Pair)
    ensures p.curr >= p.prev ==> DiffOf(p) >= 0.0
    ensures p.curr <= p.prev ==> DiffOf(p) <= 0.0
  {
    Round2Sign(p.curr - p.prev);
  }

  /**
   * Whether `_diff` was requested changes `_diff_percent`: growth of 0.001 from
   * nothing rounds to a zero difference, so the percentage is 0 when it is
   * computed from the `_diff` column and 100 when it is computed from the raw values.
   */
  lemma RoundedDiffChangesPercent()
    ensures PctOf(Pair(0.001, 0.0), true) == 0.0
    ensures PctOf(Pair(0.001, 0.0), false) == 100.0
  {
    var p := Pair(0.001, 0.0);
    assert RoundHalfEven(0.001 * 100.0) == 0;
    assert DiffOf(p) == 0.0;
    PercentCases(p, true);
    PercentCases(p, false);
  }

  /** Turnover 150 against 100: a difference of 50 and a change of 50 %. */
  lemma GrowthExample(roundedDiff: bool)
    ensures DiffOf(Pair(150.0, 100.0)) == 50.0
    ensures PctOf(Pair(150.0, 100.0), roundedDiff) == 50.0
  {
    Round2Whole(50.0, 50);
  }
}
