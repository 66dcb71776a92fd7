/** The storage helpers (storage.py): the stored events and actions, an
    action appended to the stored actions, and the contact map with its
    department and owner lookups.  Whether a file exists and what it holds
    is the value `None` (no file) or `Some(table)` (its parsed contents). */
module Storage {
  import opened Tables
  import opened Strings

  const EVENT_COLUMNS: seq<string> := ["event_id", "title", "type", "due_date", "description", "reference"]
  const ACTION_COLUMNS: seq<string> := ["event_id", "department", "owner", "status", "comment", "created_at"]
  const DEPARTMENT: string := "department"
  const NAME: string := "name"

  // ------------------------------------------------------------- actions

  /** `pd.concat([df, pd.DataFrame([action])], ignore_index=True)`: the
      stored rows, then one row holding the action's values (NaN in the
      columns the action lacks); keys the table has no column for become new
      columns after the existing ones, in the action's key order. */
  function AppendAction(t: Table, action: Dict): (r: Table)
    requires WellFormedDict(action)
    ensures |r.columns| >= |t.columns| && r.columns[..|t.columns|] == t.columns
    ensures forall c :: c in r.columns <==> c in t.columns || c in action.keys
    ensures |r.rows| == |t.rows| + 1 && r.rows[..|t.rows|] == t.rows
    ensures forall c :: Cell(r.rows[|t.rows|], c) == if c in action.keys then action.values[c] else None
  {
    var r := Table(t.columns + Filter(action.keys, NotIn(t.columns)), t.rows + [action.values]);
    assert r.columns[..|t.columns|] == t.columns;
    assert r.rows[..|t.rows|] == t.rows;
    r
  }

  /** An action whose keys all have columns adds no column. */
  lemma AppendKnownKeys(t: Table, action: Dict)
    requires WellFormedDict(action) && forall k :: k in action.keys ==> k in t.columns
    ensures AppendAction(t, action).columns == t.columns
  {
    var r := AppendAction(t, action);
    SameElementsEmpty(Filter(action.keys, NotIn(t.columns)), []);
    assert r.columns == t.columns + [];
  }

  /** Stored events and actions.  `None` stands for a file that does not
      exist yet. */
  class Store {
    var events: Option<Table>
    var actions: Option<Table>

    constructor(events: Option<Table>, actions: Option<Table>)
      ensures this.events == events && this.actions == actions
    {
      this.events := events;
      this.actions := actions;
    }

    /** `load_events()`: the stored events, or no events with the six event
        columns when nothing is stored. */
    function LoadEvents(): (t: Table)
      reads this
      ensures events.None? ==> t.columns == EVENT_COLUMNS && t.rows == []
      ensures events.Some? ==> t == events.value
    {
      if events.Some? then events.value else Table(EVENT_COLUMNS, [])
    }

    /** `load_actions()`: the stored actions, or no actions with the six
        action columns when nothing is stored. */
    function LoadActions(): (t: Table)
      reads this
      ensures actions.None? ==> t.columns == ACTION_COLUMNS && t.rows == []
      ensures actions.Some? ==> t == actions.value
    {
      if actions.Some? then actions.value else Table(ACTION_COLUMNS, [])
    }

    /** `save_action(action)`: load, append one row, store. */
    method SaveAction(action: Dict)
      requires WellFormedDict(action)
      modifies this
      ensures actions == Some(AppendAction(old(LoadActions()), action))
      ensures events == old(events)
      ensures |LoadActions().rows| == |old(LoadActions()).rows| + 1
      ensures LoadActions().rows[..|old(LoadActions()).rows|] == old(LoadActions()).rows
    {
      var df := LoadActions();
      df := AppendAction(df, action);
      actions := Some(df);
    }
  }

  /** Two saves into an empty store leave exactly the two actions, in the
      order they were saved. */
  lemma TwoSavesInOrder(a: Dict, b: Dict)
    requires WellFormedDict(a) && WellFormedDict(b)
    ensures var t := AppendAction(AppendAction(Table(ACTION_COLUMNS, []), a), b);
      && |t.rows| == 2
      && (forall c :: Cell(t.rows[0], c) == if c in a.keys then a.values[c] else None)
      && (forall c :: Cell(t.rows[1], c) == if c in b.keys then b.values[c] else None)
  {
    var t1 := AppendAction(Table(ACTION_COLUMNS, []), a);
    var t := AppendAction(t1, b);
    assert t.rows[..1] == t1.rows;
    assert t.rows[0] == t1.rows[0];
  }

  // ------------------------------------------------------------ contacts

  /** `c.strip().lower()` for a column name. */
  function Norm(c: string): string
  {
    Lower(Strip(c))
  }

  function NormColumns(cols: seq<string>): (ns: seq<string>)
    ensures |ns| == |cols| && forall j :: 0 <= j < |cols| ==> ns[j] == Norm(cols[j])
  {
    seq(|cols|, j requires 0 <= j < |cols| => Norm(cols[j]))
  }

  /** A row with its cells under the normalised column names; a name that
      several columns normalise to takes the first of them. */
  function Renamed(row: Row, cols: seq<string>): (r: Row)
    ensures forall n :: n in r <==> n in NormColumns(cols)
    ensures forall j :: 0 <= j < |cols| && FirstIndex(NormColumns(cols), Norm(cols[j])) == j ==>
      Cell(r, Norm(cols[j])) == Cell(row, cols[j])
  {
    var ns := NormColumns(cols);
    var r := map n | n in ns :: Cell(row, cols[FirstIndex(ns, n)]);
    assert forall j :: 0 <= j < |cols| ==> ns[j] in ns;
    r
  }

  /** `load_contacts()`: no file gives no contacts with the columns
      `department` and `name`; a file has its column names stripped and
      lowercased, and one that then lacks either column raises ValueError. */
  function ContactsFrom(file: Option<Table>): (r: Result<Table>)
    ensures file.None? ==> r == Success(Table([DEPARTMENT, NAME], []))
    ensures file.Some? ==> (r.Failure? <==>
      DEPARTMENT !in NormColumns(file.value.columns) || NAME !in NormColumns(file.value.columns))
    ensures r.Failure? ==> r.error.ValueError?
    ensures r.Success? ==> DEPARTMENT in r.value.columns && NAME in r.value.columns
    ensures r.Success? && file.Some? ==>
      var t := file.value;
      && r.value.columns == NormColumns(t.columns)
      && |r.value.rows| == |t.rows|
      && (forall i :: 0 <= i < |t.rows| ==> r.value.rows[i] == Renamed(t.rows[i], t.columns))
  {
    match file
    case None => Success(Table([DEPARTMENT, NAME], []))
    case Some(t) =>
      var cols := NormColumns(t.columns);
      if DEPARTMENT !in cols || NAME !in cols then
        Failure(ValueError("contact_map.xlsx needs the columns 'department' and 'name'"))
      else
        Success(Table(cols, seq(|t.rows|, i requires 0 <= i < |t.rows| => Renamed(t.rows[i], t.columns))))
  }

  /** Column names are matched after trimming and lowercasing, so a file
      headed " Department " and "NAME" is accepted. */
  lemma ContactHeadersNormalised()
    ensures ContactsFrom(Some(Table([" Department ", "NAME"], []))).Success?
  {
    var cols := [" Department ", "NAME"];
    StripUnique(cols[0], 1, 11);
    StripUnique(cols[1], 0, 4);
    assert cols[0][1..11] == "Department";
    assert cols[1][0..4] == "NAME";
    assert LowerChar('D') == 'd';
    assert Lower("Department") == DEPARTMENT;
    assert Lower("NAME") == NAME;
    assert NormColumns(cols) == [DEPARTMENT, NAME];
  }

  /** `get_departments()`: the distinct present departments in ascending
      order, none when there are no contacts; a bad contact file raises. */
  function Departments(file: Option<Table>): (r: Result<seq<string>>)
    ensures ContactsFrom(file).Failure? <==> r.Failure?
    ensures r.Failure? ==> r.error == ContactsFrom(file).error
    ensures r.Success? && IsEmpty(ContactsFrom(file).value) ==> r.value == []
    ensures r.Success? ==> StrictlySorted(r.value)
    ensures r.Success? && !IsEmpty(ContactsFrom(file).value) ==> forall d :: d in r.value <==>
      exists row :: row in ContactsFrom(file).value.rows && Cell(row, DEPARTMENT) == Some(d)
  {
    match ContactsFrom(file)
    case Failure(e) => Failure(e)
    case Success(c) =>
      if IsEmpty(c) then Success([])
      else
        var depts := Column(c.rows, DEPARTMENT);
        assert forall d :: Some(d) in depts <==> exists row :: row in c.rows && Cell(row, DEPARTMENT) == Some(d) by {
          forall d ensures Some(d) in depts <==> exists row :: row in c.rows && Cell(row, DEPARTMENT) == Some(d) {
            InColumn(c.rows, DEPARTMENT, Some(d));
          }
        }
        Success(SortedDistinct(Present(depts)))
  }

  function InDepartment(d: string): Row -> bool
  {
    row => Equals(Cell(row, DEPARTMENT), Some(d))
  }

  /** The present names of the contacts of department `d`, in stored order. */
  function NamesIn(c: Table, d: string): (ns: seq<string>)
    ensures forall x :: x in ns <==> exists row :: row in c.rows && Cell(row, DEPARTMENT) == Some(d) && Cell(row, NAME) == Some(x)
  {
    var rows := Filter(c.rows, InDepartment(d));
    var names := Column(rows, NAME);
    assert forall x :: Some(x) in names <==>
      exists row :: row in c.rows && Cell(row, DEPARTMENT) == Some(d) && Cell(row, NAME) == Some(x) by {
      forall x ensures Some(x) in names <==>
        exists row :: row in c.rows && Cell(row, DEPARTMENT) == Some(d) && Cell(row, NAME) == Some(x) {
        InColumn(rows, NAME, Some(x));
      }
    }
    Present(names)
  }

  /** `get_owners_by_department(d)`: the distinct present names of the
      contacts whose department is `d`, none when there are no contacts; a
      bad contact file raises. */
  function OwnersByDepartment(file: Option<Table>, d: string): (r: Result<seq<string>>)
    ensures ContactsFrom(file).Failure? <==> r.Failure?
    ensures r.Failure? ==> r.error == ContactsFrom(file).error
    ensures r.Success? && IsEmpty(ContactsFrom(file).value) ==> r.value == []
    ensures r.Success? ==> Distinct(r.value)
    ensures r.Success? && !IsEmpty(ContactsFrom(file).value) ==> forall x :: x in r.value <==>
      exists row :: row in ContactsFrom(file).value.rows && Cell(row, DEPARTMENT) == Some(d) && Cell(row, NAME) == Some(x)
  {
    match ContactsFrom(file)
    case Failure(e) => Failure(e)
    case Success(c) =>
      if IsEmpty(c) then Success([]) else Success(Unique(NamesIn(c, d)))
  }

  /** The owners come in the order in which their names first appear among
      the department's contacts. */
  lemma OwnersInFirstAppearanceOrder(file: Option<Table>, d: string)
    requires OwnersByDepartment(file, d).Success? && !IsEmpty(ContactsFrom(file).value)
    ensures var owners := OwnersByDepartment(file, d).value;
      var names := NamesIn(ContactsFrom(file).value, d);
      && (forall x :: x in owners ==> x in names)
      && forall i, j :: 0 <= i < j < |owners| ==> FirstIndex(names, owners[i]) < FirstIndex(names, owners[j])
  {
    UniqueFirstAppearance(NamesIn(ContactsFrom(file).value, d));
  }
}
