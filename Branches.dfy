/** The branch display key that the register page and the dashboard derive
    from the managing-branch column: the word "지사" (branch office) taken out
    and the surrounding whitespace trimmed, or "미지정" (unassigned) for every
    row when the table has no managing-branch column. */
module Branches {
  import opened Tables
  import opened Strings
  import opened Columns

  const UNASSIGNED: string := "미지정"

  /** `.str.replace("지사", "").str.strip()` on one cell; NaN stays NaN. */
  function BranchKey(v: Option<string>): (k: Option<string>)
    ensures v.None? <==> k.None?
    ensures k.Some? ==> |k.value| <= |v.value|
    ensures k.Some? && k.value != [] ==> !IsSpace(k.value[0]) && !IsSpace(k.value[|k.value| - 1])
  {
    match v
    case None => None
    case Some(s) => Some(Strip(RemoveAll(s, KEY)))
  }

  lemma KeyHasNoSelfOverlap(x: string, y: string, i: int)
    requires (forall k :: !OccursAt(x, KEY, k)) && 0 <= i < |x|
    ensures !OccursAt(x + KEY + y, KEY, i)
  {
    var s := x + KEY + y;
    if i + 2 <= |x| {
      assert x[i..i + 2] == s[i..i + 2];
      assert !OccursAt(x, KEY, i);
    } else {
      assert s[i + 1] == KEY[0] != KEY[1];
    }
  }

  /** A branch name written as a place name followed by "지사" gets the place
      name, trimmed, as its key ("중앙지사" gives "중앙"). */
  lemma BranchKeyOfSuffixed(x: string)
    requires forall k :: !OccursAt(x, KEY, k)
    ensures BranchKey(Some(x + KEY)) == Some(Strip(x))
  {
    forall i | 0 <= i < |x| ensures !OccursAt(x + KEY + [], KEY, i) {
      KeyHasNoSelfOverlap(x, [], i);
    }
    RemoveAllFirst(x, KEY, []);
    assert x + KEY + [] == x + KEY;
    assert RemoveAll([], KEY) == [];
    assert x + [] == x;
  }

  /** A name that does not contain "지사" is only trimmed. */
  lemma BranchKeyOfPlain(s: string)
    requires forall k :: !OccursAt(s, KEY, k)
    ensures BranchKey(Some(s)) == Some(Strip(s))
  {
    RemoveAllAbsent(s, KEY);
  }

  /** The key can still contain "지사": the removal is a single left-to-right
      pass, so "지지사사" loses its inner "지사" and becomes "지사". */
  lemma BranchKeyOneScan()
    ensures BranchKey(Some("지지사사")) == Some("지사")
  {
    var s := "지지사사";
    assert s[..2][1] != KEY[1];
    assert s[1..] == "지사사" && s[1..][..2] == KEY && s[1..][2..] == "사";
    assert RemoveAll("사", KEY) == "사";
    assert RemoveAll(s, KEY) == ['지'] + RemoveAll(s[1..], KEY);
    assert RemoveAll(s, KEY) == KEY;
    StripUnique(KEY, 0, 2);
    assert KEY[0..2] == KEY;
  }

  /** The key each row gets: the derived branch key when the table has the
      managing-branch column, "미지정" otherwise. */
  function KeyOf(r: Row, cols: seq<string>): Option<string>
  {
    if OFFICE in cols then BranchKey(Cell(r, OFFICE)) else Some(UNASSIGNED)
  }

  /** `t["지사"] = ...`: the key column is assigned in every row (appended to
      the columns unless the table already has one) and nothing else changes. */
  function WithBranchKey(t: Table): (r: Table)
    ensures r.columns == if KEY in t.columns then t.columns else t.columns + [KEY]
    ensures |r.rows| == |t.rows|
    ensures forall i :: 0 <= i < |t.rows| ==> Cell(r.rows[i], KEY) == KeyOf(t.rows[i], t.columns)
    ensures forall i, c :: 0 <= i < |t.rows| && c != KEY ==> Cell(r.rows[i], c) == Cell(t.rows[i], c)
    ensures OFFICE !in t.columns ==> forall i :: 0 <= i < |t.rows| ==> Cell(r.rows[i], KEY) == Some(UNASSIGNED)
  {
    Table(if KEY in t.columns then t.columns else t.columns + [KEY],
          seq(|t.rows|, i requires 0 <= i < |t.rows| => t.rows[i][KEY := KeyOf(t.rows[i], t.columns)]))
  }

  /** `sorted(column.unique())`: Python cannot order NaN against a string,
      so a column that mixes the two raises TypeError; otherwise the distinct
      values in ascending order (a column of NaN only gives the one NaN). */
  function SortedOptions(vs: seq<Option<string>>): (r: Result<seq<Option<string>>>)
    ensures r.Failure? <==> None in vs && |Present(vs)| > 0
    ensures r.Failure? ==> r.error.TypeError?
    ensures r.Success? ==> forall o :: o in r.value <==> o in vs
    ensures r.Success? ==> forall i, j :: 0 <= i < j < |r.value| ==>
      r.value[i].Some? && r.value[j].Some? && Less(r.value[i].value, r.value[j].value)
  {
    var names := Present(vs);
    if None in vs && |names| > 0 then
      assert names[0] in names;
      Failure(TypeError("'<' not supported between instances of 'float' and 'str'"))
    else if None in vs then
      assert forall o :: o in vs ==> o == None;
      Success([None])
    else
      var sorted := SortedDistinct(names);
      var opts := seq(|sorted|, i requires 0 <= i < |sorted| => Some(sorted[i]));
      assert forall o :: o in opts <==> o.Some? && o.value in sorted by {
        forall o ensures o in opts <==> o.Some? && o.value in sorted {
          if o.Some? && o.value in sorted {
            var i :| 0 <= i < |sorted| && sorted[i] == o.value;
            assert opts[i] == o;
          }
        }
      }
      Success(opts)
  }
}
