/** The registration page (pages/user_register.py): which contracts still
    need a cancellation reason, the progress figure, the sidebar narrowing
    by branch and owner, and the record saved for the chosen target. */
module UserRegister {
  import opened Tables
  import opened Strings
  import opened Columns
  import opened Branches

  /** The "all" entry that heads every sidebar option list. */
  const ALL: string := "전체"

  // ------------------------------------------------------------- done ids

  /** A result row whose reason cell is present (`notna`). */
  predicate HasReason(r: Row)
  {
    Cell(r, REASON).Some?
  }

  /** The contract ids that already have a registered reason: the distinct
      ids of the result rows whose reason is present, in first-appearance
      order, or none at all when there are no results. */
  function DoneIds(results: Table): (r: Result<seq<Option<string>>>)
    ensures IsEmpty(results) ==> r == Success([])
    ensures !IsEmpty(results) && REASON !in results.columns ==> r == Failure(KeyError(REASON))
    ensures !IsEmpty(results) && REASON in results.columns && CONTRACT !in results.columns ==>
      r == Failure(KeyError(CONTRACT))
    ensures !IsEmpty(results) && REASON in results.columns && CONTRACT in results.columns ==> r.Success?
    ensures r.Success? ==> Distinct(r.value)
    ensures r.Success? && !IsEmpty(results) ==> forall x :: x in r.value <==>
      exists row :: row in results.rows && HasReason(row) && Cell(row, CONTRACT) == x
  {
    if IsEmpty(results) then Success([])
    else if REASON !in results.columns then Failure(KeyError(REASON))
    else if CONTRACT !in results.columns then Failure(KeyError(CONTRACT))
    else
      var done := Filter(results.rows, HasReason);
      assert forall x :: x in Column(done, CONTRACT) <==>
        exists row :: row in results.rows && HasReason(row) && Cell(row, CONTRACT) == x by {
        forall x ensures x in Column(done, CONTRACT) <==>
          exists row :: row in results.rows && HasReason(row) && Cell(row, CONTRACT) == x {
          InColumn(done, CONTRACT, x);
        }
      }
      Success(Unique(Column(done, CONTRACT)))
  }

  /** A result row without a reason never marks its contract as done. */
  lemma DoneIgnoresReasonless(results: Table, extra: Row)
    requires !IsEmpty(results) && !HasReason(extra)
    ensures DoneIds(Table(results.columns, results.rows + [extra])) == DoneIds(results)
  {
    var after := Table(results.columns, results.rows + [extra]);
    FilterConcat(results.rows, [extra], HasReason);
    assert [extra][1..] == [];
    assert Filter([extra], HasReason) == [];
    assert Filter(after.rows, HasReason) == Filter(results.rows, HasReason);
    assert !IsEmpty(after);
  }

  // -------------------------------------------------------------- pending

  function NotDone(done: seq<Option<string>>): Row -> bool
  {
    row => Cell(row, CONTRACT) !in done
  }

  function IsDone(done: seq<Option<string>>): Row -> bool
  {
    row => Cell(row, CONTRACT) in done
  }

  /** `targets[~targets["계약번호"].isin(done_ids)]`: the targets whose id is
      not done. `isin` matches NaN with NaN, as equality on `Option` does. */
  function Pending(targets: Table, done: seq<Option<string>>): (r: Result<Table>)
    ensures r.Failure? <==> CONTRACT !in targets.columns
    ensures r.Failure? ==> r.error == KeyError(CONTRACT)
    ensures r.Success? ==> r.value.columns == targets.columns
    ensures r.Success? ==> forall row :: row in r.value.rows <==>
      row in targets.rows && Cell(row, CONTRACT) !in done
  {
    if CONTRACT !in targets.columns then Failure(KeyError(CONTRACT))
    else Success(Table(targets.columns, Filter(targets.rows, NotDone(done))))
  }

  /** Pending keeps the targets in their original order: its k-th row is
      the target at the k-th position whose id is not done. */
  lemma PendingInOrder(targets: Table, done: seq<Option<string>>)
    requires CONTRACT in targets.columns
    ensures var rows := Pending(targets, done).value.rows;
      var idx := Positions(targets.rows, NotDone(done));
      |rows| == |idx| && forall k :: 0 <= k < |idx| ==> rows[k] == targets.rows[idx[k]]
  {
    FilterAtPositions(targets.rows, NotDone(done));
  }

  /** Every target is either pending or done: the pending count and the
      count of targets whose id is done add up to the number of targets. */
  lemma PendingPartition(targets: Table, done: seq<Option<string>>)
    requires CONTRACT in targets.columns
    ensures |Pending(targets, done).value.rows| + |Filter(targets.rows, IsDone(done))| == |targets.rows|
  {
    FilterSplit(targets.rows, NotDone(done), IsDone(done));
  }

  // ------------------------------------------------------------- progress

  /** `len(done_ids) / len(targets)`. */
  function Progress(done: nat, total: nat): (p: real)
    requires total > 0
    ensures p >= 0.0 && p * (total as real) == done as real
  {
    done as real / total as real
  }

  lemma RatioAtMostOne(n: nat, m: nat)
    requires 0 < m && n <= m
    ensures Progress(n, m) <= 1.0
  {
    assert Progress(n, m) * (m as real) == n as real;
  }

  /** When every done id is the id of some target, progress is at most 1.
      Nothing in the page enforces that premise. */
  lemma ProgressAtMostOne(targets: Table, results: Table)
    requires |targets.rows| > 0 && DoneIds(results).Success?
    requires forall x :: x in DoneIds(results).value ==> x in Column(targets.rows, CONTRACT)
    ensures Progress(|DoneIds(results).value|, |targets.rows|) <= 1.0
  {
    var done := DoneIds(results).value;
    DistinctWithin(done, Column(targets.rows, CONTRACT));
    RatioAtMostOne(|done|, |targets.rows|);
  }

  /** Results for contracts that are not among the targets count as done,
      so progress can go past 1: one target and two registered results for
      other contracts give 2. */
  lemma ProgressCanExceedOne()
    ensures var targets := Table([CONTRACT], [map[CONTRACT := Some("A")]]);
      var results := Table([CONTRACT, REASON],
        [map[CONTRACT := Some("B"), REASON := Some("r")], map[CONTRACT := Some("C"), REASON := Some("r")]]);
      DoneIds(results).Success? && Progress(|DoneIds(results).value|, |targets.rows|) == 2.0
  {
    var b: Row := map[CONTRACT := Some("B"), REASON := Some("r")];
    var c: Row := map[CONTRACT := Some("C"), REASON := Some("r")];
    var results := Table([CONTRACT, REASON], [b, c]);
    FilterKeepsAll([b, c], HasReason);
    var ids := Column([b, c], CONTRACT);
    assert ids == [Some("B"), Some("C")];
    assert ids[..1] == [Some("B")];
    assert Unique(ids[..1]) == [Some("B")];
    assert DoneIds(results).value == Unique(ids);
  }

  // ------------------------------------------------------ sidebar filters

  function KeyIs(sel: Option<string>): Row -> bool
  {
    row => Equals(Cell(row, KEY), sel)
  }

  function OwnerIs(sel: string): Row -> bool
  {
    row => Equals(Cell(row, OWNER), Some(sel))
  }

  /** The branch filter: "전체" keeps everything, any other selection keeps
      the rows whose branch key equals it (a NaN selection equals nothing). */
  function ByBranch(t: Table, sel: Option<string>): (r: Table)
    ensures r.columns == t.columns && |r.rows| <= |t.rows|
    ensures sel == Some(ALL) ==> r == t
    ensures sel != Some(ALL) ==> forall row :: row in r.rows <==>
      row in t.rows && sel.Some? && Cell(row, KEY) == sel
    ensures sel != Some(ALL) ==> var idx := Positions(t.rows, KeyIs(sel));
      |r.rows| == |idx| && forall k :: 0 <= k < |idx| ==> r.rows[k] == t.rows[idx[k]]
  {
    FilterAtPositions(t.rows, KeyIs(sel));
    assert forall row :: KeyIs(sel)(row) <==> sel.Some? && Cell(row, KEY) == sel;
    if sel == Some(ALL) then t else Table(t.columns, Filter(t.rows, KeyIs(sel)))
  }

  /** The owner filter: "전체" keeps everything, any other owner keeps the
      rows in that owner's charge. */
  function ByOwner(t: Table, sel: string): (r: Table)
    ensures r.columns == t.columns && |r.rows| <= |t.rows|
    ensures sel == ALL ==> r == t
    ensures sel != ALL ==> forall row :: row in r.rows <==> row in t.rows && Cell(row, OWNER) == Some(sel)
    ensures sel != ALL ==> var idx := Positions(t.rows, OwnerIs(sel));
      |r.rows| == |idx| && forall k :: 0 <= k < |idx| ==> r.rows[k] == t.rows[idx[k]]
  {
    FilterAtPositions(t.rows, OwnerIs(sel));
    if sel == ALL then t else Table(t.columns, Filter(t.rows, OwnerIs(sel)))
  }

  /** The sidebar: the branch filter, then the owner filter when the table
      has an owner column. */
  function Narrow(t: Table, branch: Option<string>, owner: string): (r: Table)
    ensures r.columns == t.columns && |r.rows| <= |t.rows|
    ensures branch == Some(ALL) && (owner == ALL || OWNER !in t.columns) ==> r == t
    ensures forall row :: row in r.rows ==>
      && row in t.rows
      && (branch != Some(ALL) ==> Cell(row, KEY) == branch)
      && (owner != ALL && OWNER in t.columns ==> Cell(row, OWNER) == Some(owner))
  {
    var byBranch := ByBranch(t, branch);
    if OWNER in byBranch.columns then ByOwner(byBranch, owner) else byBranch
  }

  function KeyAndOwner(branch: Option<string>, owner: string): Row -> bool
  {
    row => Equals(Cell(row, KEY), branch) && Equals(Cell(row, OWNER), Some(owner))
  }

  /** The two filters compose as one selection by both conditions, so the
      remaining rows keep their order. */
  lemma NarrowComposes(t: Table, branch: Option<string>, owner: string)
    requires branch != Some(ALL) && owner != ALL && OWNER in t.columns
    ensures Narrow(t, branch, owner).rows == Filter(t.rows, KeyAndOwner(branch, owner))
  {
    FilterCompose(t.rows, KeyIs(branch), OwnerIs(owner), KeyAndOwner(branch, owner));
  }

  /** The condition the sidebar applies: the chosen branch key unless it is
      "전체", and the chosen owner unless it is "전체" or the table has no
      owner column. */
  function Sidebar(t: Table, branch: Option<string>, owner: string): Row -> bool
  {
    row => (branch == Some(ALL) || Equals(Cell(row, KEY), branch))
      && (owner == ALL || OWNER !in t.columns || Equals(Cell(row, OWNER), Some(owner)))
  }

  /** Whichever filters are active, the sidebar keeps exactly the rows that
      pass them, each as often as it occurs and in order. */
  lemma NarrowIsOneSelection(t: Table, branch: Option<string>, owner: string)
    ensures Narrow(t, branch, owner).rows == Filter(t.rows, Sidebar(t, branch, owner))
  {
    var side := Sidebar(t, branch, owner);
    var ownerOn := owner != ALL && OWNER in t.columns;
    if branch == Some(ALL) {
      if ownerOn {
        FilterAgree(t.rows, OwnerIs(owner), side);
      } else {
        FilterKeepsAll(t.rows, side);
      }
    } else {
      if ownerOn {
        FilterCompose(t.rows, KeyIs(branch), OwnerIs(owner), side);
      } else {
        FilterAgree(t.rows, KeyIs(branch), side);
      }
    }
  }

  /** The branch key every pending row is given, `pending["지사"] = ...`. */
  function Keyed(targets: Table, done: seq<Option<string>>): Table
    requires CONTRACT in targets.columns
  {
    WithBranchKey(Pending(targets, done).value)
  }

  /** Every row the picker offers is a target whose id is not done, with
      its branch key added, and it matches both sidebar selections. */
  lemma ChoicesArePendingTargets(targets: Table, done: seq<Option<string>>, branch: Option<string>, owner: string)
    requires CONTRACT in targets.columns
    ensures forall row :: row in Narrow(Keyed(targets, done), branch, owner).rows ==>
      && Cell(row, CONTRACT) !in done
      && (exists t :: t in targets.rows && row == t[KEY := KeyOf(t, targets.columns)])
      && (branch != Some(ALL) ==> Equals(Cell(row, KEY), branch))
      && (owner != ALL && OWNER in targets.columns ==> Equals(Cell(row, OWNER), Some(owner)))
  {
    var pending := Pending(targets, done).value;
    var keyed := WithBranchKey(pending);
    forall row | row in Narrow(keyed, branch, owner).rows
      ensures Cell(row, CONTRACT) !in done
      ensures exists t :: t in targets.rows && row == t[KEY := KeyOf(t, targets.columns)]
    {
      assert row in keyed.rows;
      var i :| 0 <= i < |keyed.rows| && keyed.rows[i] == row;
      var t := pending.rows[i];
      assert t in pending.rows;
      assert Cell(row, CONTRACT) == Cell(t, CONTRACT);
      assert row == t[KEY := KeyOf(t, targets.columns)];
    }
  }

  // ---------------------------------------------------------------- page

  datatype RegisterView =
    | NoTargets
    | AllDone(progress: real)
    | Choosing(progress: real, remaining: nat, branchOptions: seq<Option<string>>,
               ownerOptions: Option<seq<string>>, choices: Table)

  /** The page from loading to the target picker: stop when there are no
      targets or nothing is pending, otherwise add the branch key, narrow
      by the sidebar selections and offer what is left. */
  method RegisterPage(targets: Table, results: Table, branch: Option<string>, owner: string)
    returns (v: Result<RegisterView>)
    ensures IsEmpty(targets) <==> v == Success(NoTargets)
    ensures !IsEmpty(targets) && DoneIds(results).Failure? ==> v == Failure(DoneIds(results).error)
    ensures !IsEmpty(targets) && DoneIds(results).Success? && CONTRACT !in targets.columns ==>
      v == Failure(KeyError(CONTRACT))
    ensures v.Success? && !v.value.NoTargets? ==>
      && !IsEmpty(targets) && DoneIds(results).Success? && CONTRACT in targets.columns
      && v.value.progress == Progress(|DoneIds(results).value|, |targets.rows|)
    ensures (v.Success? && v.value.AllDone?) <==>
      && !IsEmpty(targets) && DoneIds(results).Success? && CONTRACT in targets.columns
      && forall row :: row in targets.rows ==> Cell(row, CONTRACT) in DoneIds(results).value
    ensures v.Success? && v.value.Choosing? ==>
      var done := DoneIds(results).value;
      var keyed := Keyed(targets, done);
      && v.value.remaining == |Pending(targets, done).value.rows| > 0
      && SortedOptions(Column(keyed.rows, KEY)).Success?
      && v.value.branchOptions == [Some(ALL)] + SortedOptions(Column(keyed.rows, KEY)).value
      && v.value.ownerOptions == (if OWNER in keyed.columns
           then Some([ALL] + SortedDistinct(Present(Column(ByBranch(keyed, branch).rows, OWNER))))
           else None)
      && v.value.choices == Narrow(keyed, branch, owner)
      && |v.value.choices.rows| > 0 && SHOP in v.value.choices.columns
    ensures !IsEmpty(targets) && DoneIds(results).Success? && CONTRACT in targets.columns
            && |Pending(targets, DoneIds(results).value).value.rows| > 0 ==>
      var keyed := Keyed(targets, DoneIds(results).value);
      var options := SortedOptions(Column(keyed.rows, KEY));
      var choices := Narrow(keyed, branch, owner);
      && (options.Failure? ==> v == Failure(options.error))
      && (options.Success? && |choices.rows| == 0 ==> v == Failure(KeyError("None")))
      && (options.Success? && |choices.rows| > 0 && SHOP !in choices.columns ==> v == Failure(KeyError(SHOP)))
      && (options.Success? && |choices.rows| > 0 && SHOP in choices.columns ==> v.Success? && v.value.Choosing?)
    ensures v == Failure(KeyError("None")) || v == Failure(KeyError(SHOP)) ==>
      && !IsEmpty(targets) && DoneIds(results).Success? && CONTRACT in targets.columns
      && |Pending(targets, DoneIds(results).value).value.rows| > 0
      && var keyed := Keyed(targets, DoneIds(results).value);
      && SortedOptions(Column(keyed.rows, KEY)).Success?
      && (v == Failure(KeyError("None")) <==> |Narrow(keyed, branch, owner).rows| == 0)
    ensures v.Failure? && v.error.TypeError? ==>
      var keyed := Keyed(targets, DoneIds(results).value);
      None in Column(keyed.rows, KEY) && |Present(Column(keyed.rows, KEY))| > 0
  {
    if IsEmpty(targets) {
      return Success(NoTargets);
    }
    var doneIds := DoneIds(results);
    if doneIds.Failure? {
      return Failure(doneIds.error);
    }
    var done := doneIds.value;
    var pendingR := Pending(targets, done);
    if pendingR.Failure? {
      return Failure(pendingR.error);
    }
    var pending := pendingR.value;
    var progress := Progress(|done|, |targets.rows|);
    var remaining := |pending.rows|;
    if IsEmpty(pending) {
      assert pending.rows == [];
      return Success(AllDone(progress));
    }
    assert pending.rows[0] in pending.rows;
    pending := WithBranchKey(pending);
    var branchOptions := SortedOptions(Column(pending.rows, KEY));
    if branchOptions.Failure? {
      return Failure(branchOptions.error);
    }
    pending := ByBranch(pending, branch);
    var ownerOptions := None;
    if OWNER in pending.columns {
      ownerOptions := Some([ALL] + SortedDistinct(Present(Column(pending.rows, OWNER))));
      pending := ByOwner(pending, owner);
    }
    if |pending.rows| == 0 {
      // the picker has no entry, and `pending.loc[None]` fails
      return Failure(KeyError("None"));
    }
    if SHOP !in pending.columns {
      // the picker's labels read the business name of every entry
      return Failure(KeyError(SHOP));
    }
    return Success(Choosing(progress, remaining, [Some(ALL)] + branchOptions.value, ownerOptions, pending));
  }

  // --------------------------------------------------------- saved record

  const COMPLAINT: string := "불만유형"
  const DETAIL: string := "세부 해지사유 및 불만 내용"
  const CANCELLED: string := "해지일자"
  const REGISTERED: string := "사유등록일자"
  const REMARK: string := "비고"

  /** The seven keys the form writes over the target row. */
  const FORM_KEYS: seq<string> := [REASON, COMPLAINT, DETAIL, CANCELLED, REGISTERED, REMARK, PROCESSED]

  /** What the form holds when it is saved: the chosen reason and complaint
      type, the free text, the registration date and the save time already
      formatted, and the remark. */
  datatype Form = Form(reason: string, complaint: Option<string>, detail: string,
                       registeredOn: string, remark: string, processedAt: string)

  /** The cancellation date shown and saved: the row's `해지일자` ("-" when
      the row has no such field), rewritten by `toDate` as YYYY-MM-DD when
      it parses, kept as it is when it does not. A NaN stays NaN. */
  function ShownDate(row: Row, cols: seq<string>, toDate: string -> Option<string>): (od: Option<string>)
    ensures od.None? <==> CANCELLED in cols && Cell(row, CANCELLED).None?
    ensures CANCELLED !in cols ==> od == (if toDate("-").Some? then toDate("-") else Some("-"))
    ensures CANCELLED in cols && Cell(row, CANCELLED).Some? ==>
      var s := Cell(row, CANCELLED).value;
      && (toDate(s).Some? ==> od == toDate(s))
      && (toDate(s).None? ==> od == Some(s))
  {
    var raw := if CANCELLED in cols then Cell(row, CANCELLED) else Some("-");
    match raw
    case None => None
    case Some(s) => if toDate(s).Some? then toDate(s) else raw
  }

  /** The seven form keys are pairwise different; only the two that start
      with "해지" need their third character to tell them apart. */
  lemma FormKeysDistinct()
    ensures Distinct(FORM_KEYS)
  {
    assert REASON[2] != CANCELLED[2];
    assert forall i, j :: 0 <= i < j < |FORM_KEYS| && (i, j) != (0, 3) ==> FORM_KEYS[i][0] != FORM_KEYS[j][0];
  }

  function FormFields(form: Form, od: Option<string>): (d: Dict)
    ensures WellFormedDict(d) && d.keys == FORM_KEYS
    ensures forall k :: k in d.values <==> k in FORM_KEYS
    ensures && d.values[REASON] == Some(form.reason)
            && d.values[COMPLAINT] == form.complaint
            && d.values[DETAIL] == Some(form.detail)
            && d.values[CANCELLED] == od
            && d.values[REGISTERED] == Some(form.registeredOn)
            && d.values[REMARK] == Some(form.remark)
            && d.values[PROCESSED] == Some(form.processedAt)
  {
    FormKeysDistinct();
    Dict(FORM_KEYS, map[REASON := Some(form.reason), COMPLAINT := form.complaint,
                        DETAIL := Some(form.detail), CANCELLED := od,
                        REGISTERED := Some(form.registeredOn), REMARK := Some(form.remark),
                        PROCESSED := Some(form.processedAt)])
  }

  /** `data = row.to_dict(); data.update({...})`: every field of the chosen
      row is kept, in the row's column order, except the seven form keys,
      which take the form's values; keys the row lacked come after. */
  function SavedRecord(row: Row, cols: seq<string>, form: Form, toDate: string -> Option<string>): (d: Dict)
    ensures WellFormedDict(d)
    ensures forall k :: k in d.values <==> k in cols || k in FORM_KEYS
    ensures forall k :: k in cols && k !in FORM_KEYS ==> d.values[k] == Cell(row, k)
    ensures && d.values[REASON] == Some(form.reason)
            && d.values[COMPLAINT] == form.complaint
            && d.values[DETAIL] == Some(form.detail)
            && d.values[CANCELLED] == ShownDate(row, cols, toDate)
            && d.values[REGISTERED] == Some(form.registeredOn)
            && d.values[REMARK] == Some(form.remark)
            && d.values[PROCESSED] == Some(form.processedAt)
    ensures |Unique(cols)| <= |d.keys| && d.keys[..|Unique(cols)|] == Unique(cols)
  {
    var base := FromRow(row, cols);
    var fields := FormFields(form, ShownDate(row, cols, toDate));
    var d := Update(base, fields);
    assert d.values == base.values + fields.values;
    d
  }

  /** The saved record carries the chosen row's contract id and a reason. */
  lemma SavedRecordKeepsId(row: Row, cols: seq<string>, form: Form, toDate: string -> Option<string>)
    requires CONTRACT in cols
    ensures var rec := SavedRecord(row, cols, form, toDate).values;
      HasReason(rec) && Cell(rec, CONTRACT) == Cell(row, CONTRACT)
  {
    assert CONTRACT !in FORM_KEYS by {
      assert forall k :: k in FORM_KEYS ==> k[0] != CONTRACT[0];
    }
  }

  /** Once the saved record is among the results, the chosen contract is
      done, so the next rerun no longer lists it as pending. */
  lemma SavedRowBecomesDone(results: Table, row: Row, cols: seq<string>, form: Form, toDate: string -> Option<string>)
    requires REASON in results.columns && CONTRACT in results.columns && CONTRACT in cols
    ensures var after := Table(results.columns, results.rows + [SavedRecord(row, cols, form, toDate).values]);
      DoneIds(after).Success? && Cell(row, CONTRACT) in DoneIds(after).value
  {
    var rec := SavedRecord(row, cols, form, toDate).values;
    SavedRecordKeepsId(row, cols, form, toDate);
    var after := Table(results.columns, results.rows + [rec]);
    assert rec in after.rows;
    assert !IsEmpty(after);
  }
}
