/** The administrator's home page (admin_home.py): the number of survey
    targets, the number of stored results, their ratio in percent with a
    guard for an empty target list, the progress bar fed with that ratio,
    and the five most recent results. */
module AdminHome {
  import opened Tables
  import opened Columns
  import UserRegister

  /** What the page shows: the three metrics, the value handed to
      `st.progress`, and the recent results when there are any. */
  datatype HomeView = HomeView(totalTarget: nat, totalDone: nat, progress: real, bar: real,
                               recent: Option<seq<Row>>)

  /** `results.tail(5)` when the results are not empty. */
  function Recent(results: Table): (r: Option<seq<Row>>)
    ensures IsEmpty(results) <==> r.None?
    ensures r.Some? ==> |r.value| == (if |results.rows| < 5 then |results.rows| else 5)
    ensures r.Some? ==> results.rows == results.rows[..|results.rows| - |r.value|] + r.value
  {
    if IsEmpty(results) then None
    else
      var n := |results.rows|;
      var k := if n < 5 then 0 else n - 5;
      assert results.rows == results.rows[..k] + results.rows[k..];
      Some(results.rows[k..])
  }

  /** The page: `len(targets)` and `len(results)` count rows, and the share
      is `total_done / total_target * 100`, or 0 without targets. */
  function Home(targets: Table, results: Table): (v: HomeView)
    ensures v.totalTarget == |targets.rows| && v.totalDone == |results.rows|
    ensures |targets.rows| == 0 ==> v.progress == 0.0
    ensures |targets.rows| > 0 ==> v.progress * (|targets.rows| as real) == 100.0 * (|results.rows| as real)
    ensures v.progress >= 0.0
    ensures |results.rows| <= |targets.rows| ==> v.progress <= 100.0
    ensures v.bar * 100.0 == v.progress
    ensures v.recent == Recent(results)
  {
    var progress := Percent(|results.rows|, |targets.rows|);
    HomeView(|targets.rows|, |results.rows|, progress, progress / 100.0, Recent(results))
  }

  /** The bar value lies in [0, 1] as long as there are no more results than
      targets. */
  lemma BarInRange(targets: Table, results: Table)
    requires |results.rows| <= |targets.rows|
    ensures 0.0 <= Home(targets, results).bar <= 1.0
  {
    var v := Home(targets, results);
    assert v.bar * 100.0 <= 100.0;
  }

  /** Nothing ties the results to the targets, so the bar value can exceed
      1: one target and two results give 2. */
  lemma BarCanExceedOne()
    ensures var targets := Table([CONTRACT], [map[CONTRACT := Some("A")]]);
      var results := Table([CONTRACT], [map[CONTRACT := Some("B")], map[CONTRACT := Some("C")]]);
      Home(targets, results).bar == 2.0
  {
    var targets := Table([CONTRACT], [map[CONTRACT := Some("A")]]);
    var results := Table([CONTRACT], [map[CONTRACT := Some("B")], map[CONTRACT := Some("C")]]);
    var v := Home(targets, results);
    assert v.progress == 200.0;
  }

  /** The home page counts every stored result as done, the register page
      only those with a reason: adding a result without a reason raises the
      home page's count by one and leaves the register page's done ids as
      they were. */
  lemma CompletionRulesDiffer(targets: Table, results: Table, extra: Row)
    requires !IsEmpty(results) && !UserRegister.HasReason(extra)
    ensures var after := Table(results.columns, results.rows + [extra]);
      && Home(targets, after).totalDone == Home(targets, results).totalDone + 1
      && UserRegister.DoneIds(after) == UserRegister.DoneIds(results)
  {
    UserRegister.DoneIgnoresReasonless(results, extra);
  }

  /** The register page's done count never exceeds the home page's. */
  lemma RegisterCountAtMostHome(targets: Table, results: Table)
    requires UserRegister.DoneIds(results).Success?
    ensures |UserRegister.DoneIds(results).value| <= Home(targets, results).totalDone
  {
    if !IsEmpty(results) {
      var done := Filter(results.rows, UserRegister.HasReason);
      assert UserRegister.DoneIds(results).value == Unique(Column(done, CONTRACT));
    }
  }
}
