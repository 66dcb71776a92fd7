/** The overview page (pages/user_dashboard.py): both sheets get the branch
    key, the targets are narrowed to the selected branches, the results to
    the contracts among those targets, and the page shows the totals and a
    per-branch table of targets, completed results and their share. */
module UserDashboard {
  import opened Tables
  import opened Strings
  import opened Columns
  import opened Branches
  import UserRegister

  // ------------------------------------------------------------- filters

  function KeyIn(sel: seq<Option<string>>): Row -> bool
  {
    row => Cell(row, KEY) in sel
  }

  /** `targets[targets["지사"].isin(sel_br)] if sel_br else targets`: an
      empty selection keeps every target. */
  function Selected(t: Table, sel: seq<Option<string>>): (r: Table)
    ensures r.columns == t.columns && |r.rows| <= |t.rows|
    ensures sel == [] ==> r == t
    ensures sel != [] ==> forall row :: row in r.rows <==> row in t.rows && Cell(row, KEY) in sel
    ensures sel != [] ==> var idx := Positions(t.rows, KeyIn(sel));
      |r.rows| == |idx| && forall k :: 0 <= k < |idx| ==> r.rows[k] == t.rows[idx[k]]
  {
    FilterAtPositions(t.rows, KeyIn(sel));
    if sel == [] then t else Table(t.columns, Filter(t.rows, KeyIn(sel)))
  }

  function IdIn(ids: seq<Option<string>>): Row -> bool
  {
    row => Cell(row, CONTRACT) in ids
  }

  /** `results[results["계약번호"].isin(filt_tgt["계약번호"])]`: the results
      for contracts among the selected targets, in stored order. */
  function Related(results: Table, targets: Table): (r: Table)
    ensures r.columns == results.columns && |r.rows| <= |results.rows|
    ensures forall row :: row in r.rows <==> (row in results.rows &&
      exists t :: t in targets.rows && Cell(t, CONTRACT) == Cell(row, CONTRACT))
    ensures var idx := Positions(results.rows, IdIn(Column(targets.rows, CONTRACT)));
      |r.rows| == |idx| && forall k :: 0 <= k < |idx| ==> r.rows[k] == results.rows[idx[k]]
  {
    var ids := Column(targets.rows, CONTRACT);
    FilterAtPositions(results.rows, IdIn(ids));
    assert forall row :: IdIn(ids)(row) <==>
      exists t :: t in targets.rows && Cell(t, CONTRACT) == Cell(row, CONTRACT) by {
      forall row ensures IdIn(ids)(row) <==>
        exists t :: t in targets.rows && Cell(t, CONTRACT) == Cell(row, CONTRACT) {
        InColumn(targets.rows, CONTRACT, Cell(row, CONTRACT));
      }
    }
    Table(results.columns, Filter(results.rows, IdIn(ids)))
  }

  /** The results with the branch key, when there are results and they name
      their managing branch; otherwise as loaded. */
  function KeyedResults(results: Table): (r: Table)
    ensures !IsEmpty(results) && OFFICE in results.columns ==> r == WithBranchKey(results)
    ensures IsEmpty(results) || OFFICE !in results.columns ==> r == results
  {
    if !IsEmpty(results) && OFFICE in results.columns then WithBranchKey(results) else results
  }

  /** The dashboard counts every result row of a selected contract as
      completed, whether or not it has a reason: a reasonless result for a
      selected target adds one related row (the page's `doneCount`) while
      the register page's done ids stay as they were. */
  lemma DashboardCountsReasonless(results: Table, filt: Table, extra: Row)
    requires !IsEmpty(results) && !UserRegister.HasReason(extra)
    requires Cell(extra, CONTRACT) in Column(filt.rows, CONTRACT)
    ensures var after := Table(results.columns, results.rows + [extra]);
      && |Related(KeyedResults(after), filt).rows| == |Related(KeyedResults(results), filt).rows| + 1
      && UserRegister.DoneIds(after) == UserRegister.DoneIds(results)
  {
    var after := Table(results.columns, results.rows + [extra]);
    UserRegister.DoneIgnoresReasonless(results, extra);
    var before := KeyedResults(results);
    var keyed := KeyedResults(after);
    var last: Row := if OFFICE in results.columns then extra[KEY := KeyOf(extra, results.columns)] else extra;
    assert keyed.rows == before.rows + [last];
    assert Cell(last, CONTRACT) == Cell(extra, CONTRACT);
    var p := IdIn(Column(filt.rows, CONTRACT));
    assert (before.rows + [last])[..|before.rows|] == before.rows;
    FilterSnoc(keyed.rows, p);
  }

  // ------------------------------------------------------ per-branch table

  /** One row of the per-branch table: the branch key, its number of
      targets (`대상`), of completed results (`완료`) and the share in
      percent (`진행률`). */
  datatype BranchStat = BranchStat(branch: string, targets: nat, done: nat, progress: real)

  /** `groupby("지사").size()` on the targets, left-joined with the same on
      the results and 0-filled: one row per key of `keys`, counting the
      target keys `tk` and the result keys `rk`. */
  function Stats(keys: seq<string>, tk: seq<Option<string>>, rk: seq<Option<string>>): (r: seq<BranchStat>)
    ensures |r| == |keys|
    ensures forall i :: 0 <= i < |keys| ==> r[i].branch == keys[i]
    ensures forall i :: 0 <= i < |keys| ==> r[i].targets == Occ(tk, keys[i]) && r[i].done == Occ(rk, keys[i])
    ensures forall i :: 0 <= i < |keys| ==> r[i].progress == Percent(r[i].done, r[i].targets)
  {
    if keys == [] then []
    else
      var t := Occ(tk, keys[0]);
      var d := Occ(rk, keys[0]);
      [BranchStat(keys[0], t, d, Percent(d, t))] + Stats(keys[1..], tk, rk)
  }

  /** The per-branch table of the selected targets and their results: the
      groups are the present branch keys of the targets, in ascending order
      (`groupby` sorts its keys and drops NaN). */
  function BranchTable(tk: seq<Option<string>>, rk: seq<Option<string>>): (s: seq<BranchStat>)
    ensures forall i :: 0 <= i < |s| ==> s[i].targets == Occ(tk, s[i].branch) && s[i].done == Occ(rk, s[i].branch)
  {
    Stats(SortedDistinct(Present(tk)), tk, rk)
  }

  function SumTargets(s: seq<BranchStat>): nat
  {
    if s == [] then 0 else s[0].targets + SumTargets(s[1..])
  }

  function SumDone(s: seq<BranchStat>): nat
  {
    if s == [] then 0 else s[0].done + SumDone(s[1..])
  }

  lemma {:induction false} SumsOfStats(keys: seq<string>, tk: seq<Option<string>>, rk: seq<Option<string>>)
    ensures SumTargets(Stats(keys, tk, rk)) == SumOcc(keys, tk)
    ensures SumDone(Stats(keys, tk, rk)) == SumOcc(keys, rk)
  {
    if keys != [] {
      SumsOfStats(keys[1..], tk, rk);
      assert Stats(keys, tk, rk)[1..] == Stats(keys[1..], tk, rk);
    }
  }

  /** The table has exactly one row per distinct present branch key of the
      targets, in ascending order and without repetition; result branches
      that no target has are dropped. */
  lemma BranchTableRows(tk: seq<Option<string>>, rk: seq<Option<string>>)
    ensures var s := BranchTable(tk, rk);
      && (forall b :: (exists i :: 0 <= i < |s| && s[i].branch == b) <==> Some(b) in tk)
      && (forall i, j :: 0 <= i < j < |s| ==> Less(s[i].branch, s[j].branch))
  {
    var keys := SortedDistinct(Present(tk));
    var s := BranchTable(tk, rk);
    forall b ensures (exists i :: 0 <= i < |s| && s[i].branch == b) <==> Some(b) in tk {
      if Some(b) in tk {
        assert b in keys;
        var i :| 0 <= i < |keys| && keys[i] == b;
        assert s[i].branch == b;
      }
      if exists i :: 0 <= i < |s| && s[i].branch == b {
        var i :| 0 <= i < |s| && s[i].branch == b;
        assert keys[i] in keys;
      }
    }
  }

  /** Every branch in the table has at least one target, so its share
      `완료 / 대상 × 100` is never a division by zero. */
  lemma BranchTableTargetsPositive(tk: seq<Option<string>>, rk: seq<Option<string>>)
    ensures var s := BranchTable(tk, rk);
      forall i :: 0 <= i < |s| ==> s[i].targets >= 1
  {
    var keys := SortedDistinct(Present(tk));
    var s := BranchTable(tk, rk);
    forall i | 0 <= i < |s| ensures s[i].targets >= 1 {
      assert keys[i] in keys;
      assert Some(keys[i]) in tk;
    }
  }

  /** Each branch's share is its completed count over its target count, in
      percent. */
  lemma BranchTableShare(tk: seq<Option<string>>, rk: seq<Option<string>>, i: int)
    requires 0 <= i < |BranchTable(tk, rk)|
    ensures var st := BranchTable(tk, rk)[i];
      st.progress == st.done as real / st.targets as real * 100.0
  {
    BranchTableTargetsPositive(tk, rk);
    assert BranchTable(tk, rk)[i].targets > 0;
  }

  /** The `대상` column adds up to the number of selected targets that have a
      branch key, which is all of them unless some managing branch is NaN;
      the `완료` column adds up to at most the number of selected results. */
  lemma BranchTableSums(tk: seq<Option<string>>, rk: seq<Option<string>>)
    ensures SumTargets(BranchTable(tk, rk)) == |Present(tk)|
    ensures None !in tk ==> SumTargets(BranchTable(tk, rk)) == |tk|
    ensures SumDone(BranchTable(tk, rk)) <= |rk|
  {
    var keys := SortedDistinct(Present(tk));
    SumsOfStats(keys, tk, rk);
    StrictlySortedDistinct(keys);
    SumOccIsCountIn(keys, tk);
    SumOccIsCountIn(keys, rk);
    CountInBounds(tk, Elems(keys));
    CountInBounds(rk, Elems(keys));
    assert forall x :: Some(x) in tk ==> x in Elems(keys) by {
      forall x | Some(x) in tk ensures x in Elems(keys) {
        assert x in Present(tk);
      }
    }
    if None !in tk {
      PresentAll(tk);
    }
  }

  // ---------------------------------------------------------------- page

  datatype DashboardView =
    | NoTargets
    | Dashboard(options: seq<Option<string>>, targetCount: nat, doneCount: nat,
                rate: real, remaining: int, stats: seq<BranchStat>)

  /** The page from loading to the per-branch table, for the branches the
      user picked in the sidebar (`sel`, empty for none). */
  method DashboardPage(targets: Table, results: Table, sel: seq<Option<string>>)
    returns (v: Result<DashboardView>)
    ensures IsEmpty(targets) <==> v == Success(NoTargets)
    ensures !IsEmpty(targets) ==>
      (SortedOptions(Column(WithBranchKey(targets).rows, KEY)).Failure? ==>
        v == Failure(SortedOptions(Column(WithBranchKey(targets).rows, KEY)).error))
    ensures v.Failure? && v.error.KeyError? ==>
      (v.error.column == CONTRACT && !IsEmpty(results)
        && (CONTRACT !in results.columns || CONTRACT !in targets.columns))
      || (v.error.column == KEY && KEY !in KeyedResults(results).columns)
    ensures v.Failure? ==> v.error.TypeError? || v.error.KeyError?
    ensures !IsEmpty(targets) && SortedOptions(Column(WithBranchKey(targets).rows, KEY)).Success? ==>
      var filt := Selected(WithBranchKey(targets), sel);
      var idsOk := IsEmpty(results) || (CONTRACT in results.columns && CONTRACT in targets.columns);
      var res := if IsEmpty(results) then Table([], []) else Related(KeyedResults(results), filt);
      && (!idsOk ==> v == Failure(KeyError(CONTRACT)))
      && (idsOk && |res.rows| > 0 && KEY !in KeyedResults(results).columns ==> v == Failure(KeyError(KEY)))
      && (idsOk && (|res.rows| == 0 || KEY in KeyedResults(results).columns) ==> v.Success? && v.value.Dashboard?)
    ensures v.Success? && v.value.Dashboard? ==>
      var filt := Selected(WithBranchKey(targets), sel);
      var res := if IsEmpty(results) then Table([], []) else Related(KeyedResults(results), filt);
      && SortedOptions(Column(WithBranchKey(targets).rows, KEY)).Success?
      && v.value.options == SortedOptions(Column(WithBranchKey(targets).rows, KEY)).value
      && v.value.targetCount == |filt.rows|
      && v.value.doneCount == |res.rows|
      && v.value.rate == Percent(|res.rows|, |filt.rows|)
      && v.value.remaining == |filt.rows| - |res.rows|
      && v.value.stats == BranchTable(Column(filt.rows, KEY), Column(res.rows, KEY))
      && (|res.rows| > 0 ==> KEY in res.columns)
  {
    if IsEmpty(targets) {
      return Success(NoTargets);
    }
    var tgt := WithBranchKey(targets);
    var res := KeyedResults(results);
    var options := SortedOptions(Column(tgt.rows, KEY));
    if options.Failure? {
      return Failure(options.error);
    }
    var filtTgt := Selected(tgt, sel);
    var filtRes := Table([], []);
    if !IsEmpty(results) {
      if CONTRACT !in res.columns || CONTRACT !in filtTgt.columns {
        return Failure(KeyError(CONTRACT));
      }
      filtRes := Related(res, filtTgt);
    }
    var tN, rN := |filtTgt.rows|, |filtRes.rows|;
    var rk: seq<Option<string>> := [];
    if rN > 0 {
      if KEY !in filtRes.columns {
        return Failure(KeyError(KEY));
      }
      rk := Column(filtRes.rows, KEY);
    }
    var stats := BranchTable(Column(filtTgt.rows, KEY), rk);
    return Success(Dashboard(options.value, tN, rN, Percent(rN, tN), tN - rN, stats));
  }
}
