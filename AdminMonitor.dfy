/** The result-monitoring page (pages/admin_monitor.py): contract ids lose
    a trailing ".0", processing times are parsed and the results sorted
    newest first, the page reports totals, the busiest branch, today's
    count and the latest update, counts per branch and per reason, and a
    case-insensitive free-text search over every cell. */
module AdminMonitor {
  import opened Tables
  import opened Strings
  import opened Columns

  // ---------------------------------------------------- contract-id cleanup

  predicate EndsWith(s: string, suffix: string)
  {
    |suffix| <= |s| && s[|s| - |suffix|..] == suffix
  }

  /** `re.sub(r"\.0$", "", s)`: a ".0" at the very end, or just before a
      final newline (where Python's `$` also matches), is removed; nothing
      else changes. */
  function CleanId(s: string): (r: string)
    ensures EndsWith(s, ".0") ==> s == r + ".0"
    ensures EndsWith(s, ".0\n") ==> |r| >= 1 && r[|r| - 1] == '\n' && s == r[..|r| - 1] + ".0\n"
    ensures !EndsWith(s, ".0") && !EndsWith(s, ".0\n") ==> r == s
  {
    if EndsWith(s, ".0") then
      var r := s[..|s| - 2];
      assert s == r + s[|s| - 2..];
      assert s[|s| - 1] == ".0"[1];
      r
    else if EndsWith(s, ".0\n") then
      var x := s[..|s| - 3];
      assert s == x + s[|s| - 3..];
      var r := x + "\n";
      assert r[..|r| - 1] == x;
      r
    else s
  }

  /** Only one ".0" goes: "1.0.0" becomes "1.0", and "123.0" becomes "123". */
  lemma CleanIdRemovesOne()
    ensures CleanId("1.0.0") == "1.0"
    ensures CleanId("123.0") == "123"
    ensures CleanId("123") == "123"
  {
    assert "1.0.0"[3..] == ".0";
    assert "123.0"[3..] == ".0";
    assert "123"[1..] != ".0" && "123"[0..] != ".0\n";
  }

  /** `astype(str)` of a cell: NaN becomes the text "nan". */
  function AsText(v: Option<string>): string
  {
    match v
    case None => "nan"
    case Some(s) => s
  }

  /** `results["계약번호"] = results["계약번호"].astype(str).str.replace(...)`:
      every row's id becomes its cleaned text, even a NaN one ("nan");
      nothing else in the row changes. */
  function CleanIds(t: Table): (r: Table)
    ensures r.columns == t.columns && |r.rows| == |t.rows|
    ensures forall i :: 0 <= i < |t.rows| ==> Cell(r.rows[i], CONTRACT) == Some(CleanId(AsText(Cell(t.rows[i], CONTRACT))))
    ensures forall i, c :: 0 <= i < |t.rows| && c != CONTRACT ==> Cell(r.rows[i], c) == Cell(t.rows[i], c)
  {
    Table(t.columns, seq(|t.rows|, i requires 0 <= i < |t.rows| =>
      t.rows[i][CONTRACT := Some(CleanId(AsText(Cell(t.rows[i], CONTRACT))))]))
  }

  // ------------------------------------------------------ processing time

  /** A cell after `pd.to_datetime(..., errors="coerce")` has run over the
      processing-time column: text cells elsewhere, a time (None for NaT)
      in that column. */
  datatype MCell = Text(text: Option<string>) | Time(at: Option<int>)

  type MRow = map<string, MCell>

  /** The time a row was processed; NaT when the column was not parsed. */
  function TimeOf(r: MRow): Option<int>
  {
    if PROCESSED in r && r[PROCESSED].Time? then r[PROCESSED].at else None
  }

  /** A text cell of a row; NaN for a missing cell or a time. */
  function TextOf(r: MRow, c: string): Option<string>
  {
    if c in r && r[c].Text? then r[c].text else None
  }

  /** The row with its processing time parsed by `parse` when the table has
      that column (NaN and unparseable text give NaT). */
  function Timed(r: Row, cols: seq<string>, parse: string -> Option<int>): (m: MRow)
    ensures PROCESSED in cols ==> TimeOf(m) == (match Cell(r, PROCESSED) case None => None case Some(s) => parse(s))
    ensures PROCESSED !in cols ==> TimeOf(m) == None
    ensures forall c :: c != PROCESSED ==> TextOf(m, c) == Cell(r, c)
  {
    var base := map c | c in r :: Text(r[c]);
    if PROCESSED in cols then
      base[PROCESSED := Time(match Cell(r, PROCESSED) case None => None case Some(s) => parse(s))]
    else
      base
  }

  function TimedRows(t: Table, parse: string -> Option<int>): (rs: seq<MRow>)
    ensures |rs| == |t.rows|
    ensures forall i :: 0 <= i < |t.rows| ==> rs[i] == Timed(t.rows[i], t.columns, parse)
  {
    seq(|t.rows|, i requires 0 <= i < |t.rows| => Timed(t.rows[i], t.columns, parse))
  }

  /** May a row processed at `a` stand before one processed at `b` in a
      newest-first order? NaT goes after every time. */
  predicate NewerFirst(a: Option<int>, b: Option<int>)
  {
    match (a, b)
    case (_, None) => true
    case (None, Some(_)) => false
    case (Some(x), Some(y)) => x >= y
  }

  predicate SortedNewestFirst(s: seq<MRow>)
  {
    forall i, j :: 0 <= i < j < |s| ==> NewerFirst(TimeOf(s[i]), TimeOf(s[j]))
  }

  function InsertByTime(x: MRow, s: seq<MRow>): (r: seq<MRow>)
    requires SortedNewestFirst(s)
    ensures SortedNewestFirst(r)
    ensures multiset(r) == multiset(s) + multiset{x}
  {
    if s == [] then [x]
    else if NewerFirst(TimeOf(x), TimeOf(s[0])) then
      assert forall j :: 0 < j < |s| ==> NewerFirst(TimeOf(x), TimeOf(s[j]));
      ConsSorted(x, s);
      [x] + s
    else
      var t := InsertByTime(x, s[1..]);
      assert s == [s[0]] + s[1..];
      HeadStaysFirst(x, s, t);
      ConsSorted(s[0], t);
      [s[0]] + t
  }

  lemma ConsSorted(x: MRow, s: seq<MRow>)
    requires SortedNewestFirst(s)
    requires forall j :: 0 <= j < |s| ==> NewerFirst(TimeOf(x), TimeOf(s[j]))
    ensures SortedNewestFirst([x] + s)
  {
    var r := [x] + s;
    forall i, j | 0 <= i < j < |r| ensures NewerFirst(TimeOf(r[i]), TimeOf(r[j])) {
      assert r[j] == s[j - 1];
      if i > 0 {
        assert r[i] == s[i - 1];
      }
    }
  }

  /** When `x` goes after the head of `s`, the head is newer than every row
      of the tail with `x` inserted. */
  lemma HeadStaysFirst(x: MRow, s: seq<MRow>, t: seq<MRow>)
    requires s != [] && SortedNewestFirst(s) && !NewerFirst(TimeOf(x), TimeOf(s[0]))
    requires multiset(t) == multiset(s[1..]) + multiset{x}
    ensures forall j :: 0 <= j < |t| ==> NewerFirst(TimeOf(s[0]), TimeOf(t[j]))
  {
    forall j | 0 <= j < |t| ensures NewerFirst(TimeOf(s[0]), TimeOf(t[j])) {
      assert t[j] in multiset(t);
      if t[j] != x {
        assert t[j] in multiset(s[1..]);
        var k :| 0 <= k < |s[1..]| && s[1..][k] == t[j];
        assert s[k + 1] == t[j];
      }
    }
  }

  /** `sort_values(by="처리일시", ascending=False)`: the same rows, newest
      first, the NaT ones last. */
  function SortByTime(s: seq<MRow>): (r: seq<MRow>)
    ensures SortedNewestFirst(r)
    ensures multiset(r) == multiset(s)
    ensures forall i, j :: 0 <= i < j < |r| && TimeOf(r[i]).None? ==> TimeOf(r[j]).None?
  {
    if s == [] then []
    else
      assert s == s[..|s| - 1] + [s[|s| - 1]];
      InsertByTime(s[|s| - 1], SortByTime(s[..|s| - 1]))
  }

  // ------------------------------------------------------------- counts

  /** A day's starting moment stands in for `.dt.strftime("%Y-%m-%d")`:
      `dayOf` is that formatting, `today` the current date as text. */
  function OnDay(dayOf: int -> string, today: string): MRow -> bool
  {
    r => TimeOf(r).Some? && dayOf(TimeOf(r).value) == today
  }

  function NotOnDay(dayOf: int -> string, today: string): MRow -> bool
  {
    r => !(TimeOf(r).Some? && dayOf(TimeOf(r).value) == today)
  }

  /** Rows processed today; 0 when the results have no processing time.
      The count is the number of positions whose row was processed today. */
  function TodayCount(rows: seq<MRow>, hasTime: bool, dayOf: int -> string, today: string): (n: nat)
    ensures !hasTime ==> n == 0
    ensures hasTime ==> n == |Positions(rows, OnDay(dayOf, today))|
    ensures n <= |rows|
  {
    FilterAtPositions(rows, OnDay(dayOf, today));
    if hasTime then |Filter(rows, OnDay(dayOf, today))| else 0
  }

  /** Every row is either processed today or not: today's count and the
      count of the other rows add up to all rows. */
  lemma TodayPartition(rows: seq<MRow>, dayOf: int -> string, today: string)
    ensures TodayCount(rows, true, dayOf, today) + |Filter(rows, NotOnDay(dayOf, today))| == |rows|
  {
    FilterAtPositions(rows, OnDay(dayOf, today));
    FilterSplit(rows, OnDay(dayOf, today), NotOnDay(dayOf, today));
  }

  /** The latest processing time, or none when every one is NaT. */
  function LatestTime(rows: seq<MRow>): (m: Option<int>)
    ensures m.None? <==> forall i :: 0 <= i < |rows| ==> TimeOf(rows[i]).None?
    ensures m.Some? ==> (exists i :: 0 <= i < |rows| && TimeOf(rows[i]) == m)
    ensures m.Some? ==> forall i :: 0 <= i < |rows| && TimeOf(rows[i]).Some? ==> TimeOf(rows[i]).value <= m.value
  {
    if rows == [] then None
    else
      var rest := LatestTime(rows[1..]);
      assert forall i :: 1 <= i < |rows| ==> rows[1..][i - 1] == rows[i];
      var here := TimeOf(rows[0]);
      assert rest.Some? ==> exists i :: 0 <= i < |rows| && TimeOf(rows[i]) == rest by {
        if rest.Some? {
          var i :| 0 <= i < |rows[1..]| && TimeOf(rows[1..][i]) == rest;
          assert TimeOf(rows[i + 1]) == rest;
        }
      }
      if here.None? then
        rest
      else if rest.None? || rest.value <= here.value then
        here
      else
        rest
  }

  /** After the newest-first sort the latest time is the first row's. */
  lemma SortedHeadIsLatest(s: seq<MRow>)
    requires |s| > 0 && SortedNewestFirst(s)
    ensures LatestTime(s) == TimeOf(s[0])
  {
    var m := LatestTime(s);
    if TimeOf(s[0]).None? {
      forall i | 0 <= i < |s| ensures TimeOf(s[i]).None? {
        if i > 0 { assert NewerFirst(TimeOf(s[0]), TimeOf(s[i])); }
      }
    } else {
      var i :| 0 <= i < |s| && TimeOf(s[i]) == m;
      if i > 0 { assert NewerFirst(TimeOf(s[0]), TimeOf(s[i])); }
    }
  }

  /** One entry of `value_counts()`: a value and how many cells hold it. */
  datatype Count = Count(value: string, n: nat)

  function CountsOf(keys: seq<string>, vs: seq<Option<string>>): (r: seq<Count>)
    ensures |r| == |keys|
    ensures forall i :: 0 <= i < |keys| ==> r[i] == Count(keys[i], Occ(vs, keys[i]))
  {
    if keys == [] then [] else [Count(keys[0], Occ(vs, keys[0]))] + CountsOf(keys[1..], vs)
  }

  function SumCounts(s: seq<Count>): nat
  {
    if s == [] then 0 else s[0].n + SumCounts(s[1..])
  }

  lemma {:induction false} SumCountsOf(keys: seq<string>, vs: seq<Option<string>>)
    ensures SumCounts(CountsOf(keys, vs)) == SumOcc(keys, vs)
  {
    if keys != [] {
      SumCountsOf(keys[1..], vs);
      assert CountsOf(keys, vs)[1..] == CountsOf(keys[1..], vs);
    }
  }

  /** `series.value_counts()`: each distinct present value once (in order of
      first appearance here) with its number of cells. */
  function ValueCounts(vs: seq<Option<string>>): (vc: seq<Count>)
    ensures forall i :: 0 <= i < |vc| ==> vc[i].n == Occ(vs, vc[i].value)
  {
    CountsOf(Unique(Present(vs)), vs)
  }

  /** The counts cover exactly the distinct present values, each at least
      once, and they add up to the number of present cells. */
  lemma ValueCountsCover(vs: seq<Option<string>>)
    ensures var vc := ValueCounts(vs);
      && (forall x :: (exists i :: 0 <= i < |vc| && vc[i].value == x) <==> Some(x) in vs)
      && (forall i, j :: 0 <= i < j < |vc| ==> vc[i].value != vc[j].value)
      && (forall i :: 0 <= i < |vc| ==> vc[i].n >= 1 && vc[i].n == Occ(vs, vc[i].value))
      && SumCounts(vc) == |Present(vs)|
  {
    var keys := Unique(Present(vs));
    var vc := ValueCounts(vs);
    forall x ensures (exists i :: 0 <= i < |vc| && vc[i].value == x) <==> Some(x) in vs {
      if Some(x) in vs {
        assert x in keys;
        var i :| 0 <= i < |keys| && keys[i] == x;
        assert vc[i].value == x;
      }
      if exists i :: 0 <= i < |vc| && vc[i].value == x {
        var i :| 0 <= i < |vc| && vc[i].value == x;
        assert keys[i] in keys;
      }
    }
    forall i | 0 <= i < |vc| ensures vc[i].n >= 1 {
      assert keys[i] in keys;
    }
    SumCountsOf(keys, vs);
    SumOccIsCountIn(keys, vs);
    CountInBounds(vs, Elems(keys));
  }

  /** `value_counts().idxmax()`: a value with the largest count; an empty
      count list (every cell NaN) raises ValueError. */
  function Busiest(vc: seq<Count>): (r: Result<string>)
    ensures r.Failure? <==> vc == []
    ensures r.Failure? ==> r.error.ValueError?
    ensures r.Success? ==> exists i :: (0 <= i < |vc| && vc[i].value == r.value &&
      forall j :: 0 <= j < |vc| ==> vc[j].n <= vc[i].n)
  {
    if vc == [] then Failure(ValueError("attempt to get argmax of an empty sequence"))
    else
      var k := MaxAt(vc);
      Success(vc[k].value)
  }

  /** The first position holding the largest count. */
  function MaxAt(vc: seq<Count>): (k: nat)
    requires vc != []
    ensures k < |vc| && forall j :: 0 <= j < |vc| ==> vc[j].n <= vc[k].n
  {
    if |vc| == 1 then 0
    else
      var k := MaxAt(vc[1..]);
      assert forall j :: 1 <= j < |vc| ==> vc[1..][j - 1] == vc[j];
      if vc[0].n >= vc[k + 1].n then 0 else k + 1
  }

  // -------------------------------------------------------------- search

  /** `astype(str)` of a monitored cell: NaN is "nan", NaT is "NaT", a time
      is written by `show`. */
  function CellText(r: MRow, c: string, show: int -> string): (s: string)
    ensures c !in r || r[c] == Text(None) ==> s == "nan"
    ensures c in r && r[c].Text? && r[c].text.Some? ==> s == r[c].text.value
    ensures c in r && r[c] == Time(None) ==> s == "NaT"
  {
    if c !in r then "nan"
    else match r[c]
      case Text(v) => AsText(v)
      case Time(None) => "NaT"
      case Time(Some(t)) => show(t)
  }

  /** Some column's lowercased text contains the lowercased query. */
  predicate Matches(r: MRow, cols: seq<string>, q: string, show: int -> string)
  {
    exists c :: c in cols && Contains(Lower(CellText(r, c, show)), Lower(q))
  }

  function Hit(cols: seq<string>, q: string, show: int -> string): MRow -> bool
  {
    r => Matches(r, cols, q, show)
  }

  /** The search box: an empty query keeps every row; any other keeps, in
      order, the rows where some column's lowercased text contains the
      lowercased query. */
  function Search(rows: seq<MRow>, cols: seq<string>, q: string, show: int -> string): (r: seq<MRow>)
    ensures q == [] ==> r == rows
    ensures q != [] ==> forall m :: m in r <==> m in rows && Matches(m, cols, q, show)
    ensures q != [] ==> var idx := Positions(rows, Hit(cols, q, show));
      |r| == |idx| && forall k :: 0 <= k < |idx| ==> r[k] == rows[idx[k]]
    ensures |r| <= |rows|
  {
    var hit := Hit(cols, q, show);
    FilterAtPositions(rows, hit);
    if q == [] then rows else Filter(rows, hit)
  }

  /** NaN cells read as "nan", so the query "na" finds every row that has a
      NaN cell in one of the columns. */
  lemma SearchFindsNaN(rows: seq<MRow>, cols: seq<string>, show: int -> string, m: MRow, c: string)
    requires m in rows && c in cols && (c !in m || m[c] == Text(None))
    ensures m in Search(rows, cols, "na", show)
  {
    assert Lower(CellText(m, c, show))[0..2] == "na";
    assert OccursAt(Lower(CellText(m, c, show)), Lower("na"), 0);
  }

  // ---------------------------------------------------------------- page

  datatype MonitorView =
    | NoResults
    | Monitor(total: nat, busiest: string, todayCount: nat, latest: string,
              branchCounts: Option<seq<Count>>, reasonCounts: Option<seq<Count>>, shown: seq<MRow>)

  function TextColumn(rows: seq<MRow>, c: string): (vs: seq<Option<string>>)
    ensures |vs| == |rows| && forall i :: 0 <= i < |rows| ==> vs[i] == TextOf(rows[i], c)
  {
    seq(|rows|, i requires 0 <= i < |rows| => TextOf(rows[i], c))
  }

  /** The ids cleaned when the results have an id column. */
  function Cleaned(results: Table): (t: Table)
    ensures t.columns == results.columns && |t.rows| == |results.rows|
  {
    if CONTRACT in results.columns then CleanIds(results) else results
  }

  /** The rows the page works on: ids cleaned, times parsed, and sorted
      newest first when there is a processing-time column. */
  function Prepared(results: Table, parse: string -> Option<int>): (rows: seq<MRow>)
    ensures multiset(rows) == multiset(TimedRows(Cleaned(results), parse))
    ensures |rows| == |results.rows|
    ensures PROCESSED in results.columns ==> SortedNewestFirst(rows)
  {
    var timed := TimedRows(Cleaned(results), parse);
    assert |multiset(timed)| == |timed|;
    if PROCESSED in results.columns then
      var rows := SortByTime(timed);
      assert |multiset(rows)| == |rows|;
      rows
    else timed
  }

  /** The page for the stored results. `parse` is `pd.to_datetime` on one
      cell, `dayOf` and `stamp` are the two `strftime` formats, `show` is
      `str` of a time, `today` the current date and `query` the search box. */
  method MonitorPage(results: Table, parse: string -> Option<int>, dayOf: int -> string, today: string,
                     stamp: int -> string, show: int -> string, query: string)
    returns (v: Result<MonitorView>)
    ensures IsEmpty(results) <==> v == Success(NoResults)
    ensures v.Success? && v.value.Monitor? ==>
      var rows := Prepared(results, parse);
      var branches := ValueCounts(TextColumn(rows, OFFICE));
      && v.value.total == |results.rows|
      && (OFFICE in results.columns ==> Busiest(branches).Success? && v.value.busiest == Busiest(branches).value)
      && (OFFICE !in results.columns ==> v.value.busiest == "-")
      && v.value.todayCount == TodayCount(rows, PROCESSED in results.columns, dayOf, today)
      && (PROCESSED in results.columns ==> LatestTime(rows).Some? && v.value.latest == stamp(LatestTime(rows).value))
      && (PROCESSED !in results.columns ==> v.value.latest == "-")
      && v.value.branchCounts == (if OFFICE in results.columns then Some(branches) else None)
      && v.value.reasonCounts == (if REASON in results.columns then Some(ValueCounts(TextColumn(rows, REASON))) else None)
      && v.value.shown == Search(rows, results.columns, query, show)
    ensures v.Failure? ==> v.error.ValueError? && !IsEmpty(results)
    ensures v.Failure? ==>
      var rows := Prepared(results, parse);
      || (OFFICE in results.columns && forall i :: 0 <= i < |rows| ==> TextOf(rows[i], OFFICE).None?)
      || (PROCESSED in results.columns && forall i :: 0 <= i < |rows| ==> TimeOf(rows[i]).None?)
  {
    if IsEmpty(results) {
      return Success(NoResults);
    }
    var t := results;
    if CONTRACT in t.columns {
      t := CleanIds(t);
    }
    var rows := TimedRows(t, parse);
    if PROCESSED in t.columns {
      rows := SortByTime(rows);
    }
    assert rows == Prepared(results, parse);
    var total := |rows|;
    var busiest := "-";
    if OFFICE in t.columns {
      var top := Busiest(ValueCounts(TextColumn(rows, OFFICE)));
      if top.Failure? {
        NoBranchNamed(rows);
        return Failure(top.error);
      }
      busiest := top.value;
    }
    var todayCount := TodayCount(rows, PROCESSED in t.columns, dayOf, today);
    var latest := "-";
    if PROCESSED in t.columns {
      var m := LatestTime(rows);
      if m.None? {
        return Failure(ValueError("NaTType does not support strftime"));
      }
      latest := stamp(m.value);
    }
    var branchCounts := if OFFICE in t.columns then Some(ValueCounts(TextColumn(rows, OFFICE))) else None;
    var reasonCounts := if REASON in t.columns then Some(ValueCounts(TextColumn(rows, REASON))) else None;
    var shown := Search(rows, t.columns, query, show);
    return Success(Monitor(total, busiest, todayCount, latest, branchCounts, reasonCounts, shown));
  }

  /** An empty branch count list means every row's branch is NaN. */
  lemma NoBranchNamed(rows: seq<MRow>)
    requires ValueCounts(TextColumn(rows, OFFICE)) == []
    ensures forall i :: 0 <= i < |rows| ==> TextOf(rows[i], OFFICE).None?
  {
    var vs := TextColumn(rows, OFFICE);
    assert Unique(Present(vs)) == [];
    assert forall x :: Some(x) !in vs by {
      forall x ensures Some(x) !in vs {
        assert x !in Unique(Present(vs));
      }
    }
    forall i | 0 <= i < |rows| ensures TextOf(rows[i], OFFICE).None? {
      assert vs[i] in vs;
    }
  }
}
