/** Tables as the pages handle them.  A pandas DataFrame is a list of column
    names and a list of rows; a row maps a column name to a cell, and a cell
    that is NaN (or a key the row lacks) reads as None.  A Python dict is an
    ordered list of distinct keys with their values. */
module Tables {

  datatype Option<+T> = None | Some(value: T)

  /** The Python exceptions the pages can raise. */
  datatype Error =
    | KeyError(column: string)
    | ValueError(message: string)
    | TypeError(message: string)

  datatype Result<+T> = Success(value: T) | Failure(error: Error)

  type Row = map<string, Option<string>>

  datatype Table = Table(columns: seq<string>, rows: seq<Row>)

  /** The cell of row `r` in column `c`; NaN when the row has no such cell. */
  function Cell(r: Row, c: string): Option<string>
  {
    if c in r then r[c] else None
  }

  /** DataFrame.empty: no rows, or no columns. */
  predicate IsEmpty(t: Table)
  {
    |t.rows| == 0 || |t.columns| == 0
  }

  /** Element-wise `series == x`: NaN equals nothing, not even NaN. */
  predicate Equals(v: Option<string>, x: Option<string>)
  {
    v.Some? && v == x
  }

  predicate Distinct<T(==)>(s: seq<T>)
  {
    forall i, j :: 0 <= i < j < |s| ==> s[i] != s[j]
  }

  function Elems<T>(s: seq<T>): set<T>
  {
    set x | x in s
  }

  // ---------------------------------------------------------------- filters

  /** Boolean-mask selection `df[mask]`: the elements that satisfy `p`, in order. */
  function Filter<T(!new)>(s: seq<T>, p: T -> bool): (r: seq<T>)
    ensures |r| <= |s|
    ensures forall x :: x in r <==> x in s && p(x)
  {
    if s == [] then [] else (if p(s[0]) then [s[0]] else []) + Filter(s[1..], p)
  }

  /** Selection keeps relative order: it distributes over concatenation. */
  lemma {:induction false} FilterConcat<T(!new)>(a: seq<T>, b: seq<T>, p: T -> bool)
    ensures Filter(a + b, p) == Filter(a, p) + Filter(b, p)
  {
    if a == [] {
      assert a + b == b;
    } else {
      assert (a + b)[1..] == a[1..] + b;
      FilterConcat(a[1..], b, p);
    }
  }

  /** Two successive selections are one selection by the conjunction `r`. */
  lemma {:induction false} FilterCompose<T(!new)>(s: seq<T>, p: T -> bool, q: T -> bool, r: T -> bool)
    requires forall x :: r(x) == (p(x) && q(x))
    ensures Filter(Filter(s, p), q) == Filter(s, r)
  {
    if s != [] {
      FilterCompose(s[1..], p, q, r);
      var head := if p(s[0]) then [s[0]] else [];
      FilterConcat(head, Filter(s[1..], p), q);
    }
  }

  /** A list without repetitions whose elements all occur in `b` is no
      longer than `b`. */
  lemma DistinctWithin<T(!new)>(a: seq<T>, b: seq<T>)
    requires Distinct(a) && forall x :: x in a ==> x in b
    ensures |a| <= |b|
  {
    DistinctCard(a);
    SubsetCard(Elems(a), Elems(b));
    ElemsCard(b);
  }

  /** A subset has at most as many elements. */
  lemma SubsetCard<T>(a: set<T>, b: set<T>)
    requires a <= b
    ensures |a| <= |b|
  {
    assert b == a + (b - a);
  }

  /** A selection that every element passes changes nothing. */
  lemma {:induction false} FilterKeepsAll<T(!new)>(s: seq<T>, p: T -> bool)
    requires forall i :: 0 <= i < |s| ==> p(s[i])
    ensures Filter(s, p) == s
  {
    if s != [] {
      FilterKeepsAll(s[1..], p);
    }
  }

  /** A selection and its complement (`q` is the negation of `p`) split
      the list: every element lands in exactly one of them. */
  lemma {:induction false} FilterSplit<T(!new)>(s: seq<T>, p: T -> bool, q: T -> bool)
    requires forall x :: q(x) == !p(x)
    ensures |Filter(s, p)| + |Filter(s, q)| == |s|
    ensures multiset(Filter(s, p)) + multiset(Filter(s, q)) == multiset(s)
  {
    if s != [] {
      FilterSplit(s[1..], p, q);
      assert s == [s[0]] + s[1..];
    }
  }

  /** The positions of `s` whose element satisfies `p`, ascending. */
  function Positions<T>(s: seq<T>, p: T -> bool): (idx: seq<nat>)
    ensures forall k :: 0 <= k < |idx| ==> idx[k] < |s| && p(s[idx[k]])
    ensures forall k, l :: 0 <= k < l < |idx| ==> idx[k] < idx[l]
    ensures forall i :: 0 <= i < |s| && p(s[i]) ==> i in idx
  {
    if s == [] then []
    else
      var n := |s| - 1;
      var front := Positions(s[..n], p);
      assert forall k :: 0 <= k < |front| ==> s[..n][front[k]] == s[front[k]];
      assert forall i :: 0 <= i < n ==> s[..n][i] == s[i];
      front + (if p(s[n]) then [n] else [])
  }

  /** A selection is an order-preserving subsequence: its k-th element is
      the element of `s` at the k-th position that satisfies `p`. */
  lemma FilterSnoc<T(!new)>(s: seq<T>, p: T -> bool)
    requires s != []
    ensures Filter(s, p) == Filter(s[..|s| - 1], p) + (if p(s[|s| - 1]) then [s[|s| - 1]] else [])
  {
    var n := |s| - 1;
    var last: seq<T> := [s[n]];
    assert s == s[..n] + last;
    FilterConcat(s[..n], last, p);
    assert last[1..] == [];
    assert Filter(last, p) == (if p(s[n]) then last else []) + Filter([], p);
  }

  lemma {:induction false} FilterAtPositions<T(!new)>(s: seq<T>, p: T -> bool)
    ensures |Filter(s, p)| == |Positions(s, p)|
    ensures forall k :: 0 <= k < |Positions(s, p)| ==> Filter(s, p)[k] == s[Positions(s, p)[k]]
  {
    if s != [] {
      var n := |s| - 1;
      var pre := s[..n];
      FilterAtPositions(pre, p);
      FilterSnoc(s, p);
      var front := Positions(pre, p);
      var f := Filter(pre, p);
      var idx := Positions(s, p);
      assert idx == front + (if p(s[n]) then [n] else []);
      forall k | 0 <= k < |idx| ensures Filter(s, p)[k] == s[idx[k]] {
        if k < |front| {
          assert Filter(s, p)[k] == f[k] == pre[front[k]];
        }
      }
    }
  }

  /** A list without repetitions has as many elements as its set. */
  lemma {:induction false} DistinctCard<T(!new)>(s: seq<T>)
    requires Distinct(s)
    ensures |Elems(s)| == |s|
  {
    if s != [] {
      DistinctCard(s[1..]);
      assert Elems(s) == {s[0]} + Elems(s[1..]);
      assert s[0] !in Elems(s[1..]);
    }
  }

  lemma {:induction false} ElemsCard<T(!new)>(s: seq<T>)
    ensures |Elems(s)| <= |s|
  {
    if s != [] {
      ElemsCard(s[1..]);
      assert Elems(s) == {s[0]} + Elems(s[1..]);
    }
  }

  // --------------------------------------------------------------- unique()

  /** Series.unique(): the distinct values in order of first appearance. */
  function Unique<T(==,!new)>(s: seq<T>): (r: seq<T>)
    ensures Distinct(r)
    ensures Elems(r) == Elems(s)
    ensures forall x :: x in r <==> x in s
    ensures |r| <= |s|
  {
    if s == [] then []
    else
      var r := Unique(s[..|s| - 1]);
      assert forall x :: x in s <==> x in s[..|s| - 1] || x == s[|s| - 1];
      if s[|s| - 1] in r then r else r + [s[|s| - 1]]
  }

  /** The position of the first occurrence of `x` in `s`. */
  function FirstIndex<T(==)>(s: seq<T>, x: T): (k: nat)
    requires x in s
    ensures k < |s| && s[k] == x
    ensures forall j :: 0 <= j < k ==> s[j] != x
  {
    if s[0] == x then 0 else 1 + FirstIndex(s[1..], x)
  }

  lemma FirstIndexOfPrefix<T>(s: seq<T>, n: nat, x: T)
    requires n <= |s| && x in s[..n]
    ensures FirstIndex(s, x) == FirstIndex(s[..n], x)
  {
    var k, k' := FirstIndex(s, x), FirstIndex(s[..n], x);
    assert s[k'] == x;
    assert k <= k';
    assert k < n && s[..n][k] == x;
  }

  /** unique() lists the values in the order of their first occurrences. */
  lemma {:induction false} UniqueFirstAppearance<T(!new)>(s: seq<T>)
    ensures forall i, j :: 0 <= i < j < |Unique(s)| ==>
      FirstIndex(s, Unique(s)[i]) < FirstIndex(s, Unique(s)[j])
  {
    if s != [] {
      var n := |s| - 1;
      var p := s[..n];
      UniqueFirstAppearance(p);
      var r := Unique(s);
      forall i, j | 0 <= i < j < |r|
        ensures FirstIndex(s, r[i]) < FirstIndex(s, r[j])
      {
        assert r[i] in Unique(p);
        FirstIndexOfPrefix(s, n, r[i]);
        if j < |Unique(p)| {
          FirstIndexOfPrefix(s, n, r[j]);
        } else {
          assert r[j] == s[n] && s[n] !in p;
          assert FirstIndex(s, r[j]) == n;
        }
      }
    }
  }

  // ------------------------------------------------------- counting cells

  /** Column access `df[c]` as a list of cells. */
  function Column(rows: seq<Row>, c: string): (vs: seq<Option<string>>)
    ensures |vs| == |rows|
    ensures forall i :: 0 <= i < |rows| ==> vs[i] == Cell(rows[i], c)
  {
    seq(|rows|, i requires 0 <= i < |rows| => Cell(rows[i], c))
  }

  /** A value occurs in a column exactly when some row holds it there. */
  lemma InColumn(rows: seq<Row>, c: string, x: Option<string>)
    ensures x in Column(rows, c) <==> exists r :: r in rows && Cell(r, c) == x
  {
    var vs := Column(rows, c);
    if x in vs {
      var i :| 0 <= i < |vs| && vs[i] == x;
      assert rows[i] in rows;
    }
    if exists r :: r in rows && Cell(r, c) == x {
      var r :| r in rows && Cell(r, c) == x;
      var i :| 0 <= i < |rows| && rows[i] == r;
      assert vs[i] == x;
    }
  }

  /** Series.dropna(): the present values, in order. */
  function Present(vs: seq<Option<string>>): (r: seq<string>)
    ensures |r| <= |vs|
    ensures forall x :: x in r <==> Some(x) in vs
  {
    if vs == [] then []
    else (if vs[0].Some? then [vs[0].value] else []) + Present(vs[1..])
  }

  predicate IsPresent(o: Option<string>)
  {
    o.Some?
  }

  /** `Present` is the selection of the cells that are not NaN, unwrapped. */
  lemma {:induction false} PresentIsFilter(vs: seq<Option<string>>)
    ensures |Present(vs)| == |Filter(vs, IsPresent)|
    ensures forall k :: 0 <= k < |Present(vs)| ==> Some(Present(vs)[k]) == Filter(vs, IsPresent)[k]
  {
    if vs != [] {
      PresentIsFilter(vs[1..]);
      var head := if vs[0].Some? then [vs[0].value] else [];
      var r := Present(vs);
      assert r == head + Present(vs[1..]);
      forall k | 0 <= k < |r| ensures Some(r[k]) == Filter(vs, IsPresent)[k] {
        if k >= |head| {
          assert r[k] == Present(vs[1..])[k - |head|];
        }
      }
    }
  }

  /** dropna() keeps every present cell, as often as it occurs and in
      order: its k-th value is the cell at the k-th position that is not
      NaN. */
  lemma PresentInOrder(vs: seq<Option<string>>)
    ensures |Present(vs)| == |Positions(vs, IsPresent)|
    ensures forall k :: 0 <= k < |Present(vs)| ==> Some(Present(vs)[k]) == vs[Positions(vs, IsPresent)[k]]
  {
    PresentIsFilter(vs);
    FilterAtPositions(vs, IsPresent);
  }

  /** Without NaN cells nothing is dropped. */
  lemma {:induction false} PresentAll(vs: seq<Option<string>>)
    requires None !in vs
    ensures |Present(vs)| == |vs|
  {
    if vs != [] {
      assert vs[0] in vs;
      assert forall i :: 0 <= i < |vs[1..]| ==> vs[1..][i] == vs[i + 1];
      PresentAll(vs[1..]);
    }
  }

  /** How many cells hold the value `x`. */
  function Occ(vs: seq<Option<string>>, x: string): (n: nat)
    ensures n <= |vs|
    ensures n > 0 <==> Some(x) in vs
  {
    if vs == [] then 0 else (if vs[0] == Some(x) then 1 else 0) + Occ(vs[1..], x)
  }

  /** How many cells hold a value that belongs to `ks`. */
  function CountIn(vs: seq<Option<string>>, ks: set<string>): nat
  {
    if vs == [] then 0
    else (if vs[0].Some? && vs[0].value in ks then 1 else 0) + CountIn(vs[1..], ks)
  }

  /** The sum of the counts of the keys `ks`. */
  function SumOcc(ks: seq<string>, vs: seq<Option<string>>): nat
  {
    if ks == [] then 0 else Occ(vs, ks[0]) + SumOcc(ks[1..], vs)
  }

  lemma {:induction false} CountInBounds(vs: seq<Option<string>>, ks: set<string>)
    ensures CountIn(vs, ks) <= |Present(vs)| <= |vs|
    ensures (forall x :: Some(x) in vs ==> x in ks) ==> CountIn(vs, ks) == |Present(vs)|
  {
    if vs != [] {
      CountInBounds(vs[1..], ks);
      assert forall x :: Some(x) in vs[1..] ==> Some(x) in vs;
    }
  }

  lemma {:induction false} SumOccCons(ks: seq<string>, v: Option<string>, vs: seq<Option<string>>)
    requires Distinct(ks)
    ensures SumOcc(ks, [v] + vs) ==
      SumOcc(ks, vs) + (if v.Some? && v.value in ks then 1 else 0)
  {
    if ks != [] {
      assert ([v] + vs)[1..] == vs;
      SumOccCons(ks[1..], v, vs);
      assert v.Some? && v.value in ks ==> v.value == ks[0] || v.value in ks[1..];
      assert v.Some? && v.value == ks[0] ==> v.value !in ks[1..];
    }
  }

  /** Summing the counts of distinct keys counts every cell whose value is
      one of the keys exactly once. */
  lemma {:induction false} SumOccIsCountIn(ks: seq<string>, vs: seq<Option<string>>)
    requires Distinct(ks)
    ensures SumOcc(ks, vs) == CountIn(vs, Elems(ks))
  {
    if vs == [] {
      SumOccEmpty(ks);
    } else {
      assert vs == [vs[0]] + vs[1..];
      SumOccCons(ks, vs[0], vs[1..]);
      SumOccIsCountIn(ks, vs[1..]);
    }
  }

  lemma {:induction false} SumOccEmpty(ks: seq<string>)
    ensures SumOcc(ks, []) == 0
  {
    if ks != [] {
      SumOccEmpty(ks[1..]);
    }
  }

  // ------------------------------------------------------------ percents

  /** `part / total * 100 if total > 0 else 0`: a share in percent, with the
      pages' guard against dividing by zero. */
  function Percent(part: nat, total: nat): (p: real)
    ensures total == 0 ==> p == 0.0
    ensures total > 0 ==> p * (total as real) == 100.0 * (part as real)
    ensures p >= 0.0
    ensures part <= total ==> p <= 100.0
  {
    if total > 0 then
      var p := part as real / total as real * 100.0;
      assert part as real / total as real <= 1.0 ==> p <= 100.0;
      p
    else 0.0
  }

  // ------------------------------------------------------------------ dicts

  /** A Python dict: its keys in insertion order and the value of each key. */
  datatype Dict = Dict(keys: seq<string>, values: map<string, Option<string>>)

  /** The key list holds each key of the dict exactly once. */
  predicate WellFormedDict(d: Dict)
  {
    && Distinct(d.keys)
    && (forall k :: k in d.keys ==> k in d.values)
    && (forall k :: k in d.values ==> k in d.keys)
  }

  /** `d[k] = v`: an existing key keeps its place, a new key goes last. */
  function Put(d: Dict, k: string, v: Option<string>): (r: Dict)
    requires WellFormedDict(d)
    ensures WellFormedDict(r)
  {
    Dict(if k in d.values then d.keys else d.keys + [k], d.values[k := v])
  }

  /** Puts the keys `ks` of `vals`, one after the other. */
  function PutAll(d: Dict, ks: seq<string>, vals: map<string, Option<string>>): (r: Dict)
    requires WellFormedDict(d) && Elems(ks) <= vals.Keys
    ensures WellFormedDict(r)
    decreases |ks|
  {
    if ks == [] then d
    else
      assert Elems(ks[1..]) <= Elems(ks);
      PutAll(Put(d, ks[0], vals[ks[0]]), ks[1..], vals)
  }

  lemma {:induction false} PutAllValues(d: Dict, ks: seq<string>, vals: map<string, Option<string>>)
    requires WellFormedDict(d) && Elems(ks) <= vals.Keys
    ensures forall k :: k in PutAll(d, ks, vals).values <==> k in d.values || k in ks
    ensures forall k :: k in PutAll(d, ks, vals).values ==>
      PutAll(d, ks, vals).values[k] == if k in ks then vals[k] else d.values[k]
    decreases |ks|
  {
    if ks != [] {
      assert Elems(ks[1..]) <= Elems(ks);
      PutAllValues(Put(d, ks[0], vals[ks[0]]), ks[1..], vals);
      assert forall k :: k in ks <==> k == ks[0] || k in ks[1..];
    }
  }

  lemma {:induction false} PutAllPrefix(d: Dict, ks: seq<string>, vals: map<string, Option<string>>)
    requires WellFormedDict(d) && Elems(ks) <= vals.Keys
    ensures |d.keys| <= |PutAll(d, ks, vals).keys|
    ensures PutAll(d, ks, vals).keys[..|d.keys|] == d.keys
    decreases |ks|
  {
    if ks != [] {
      assert Elems(ks[1..]) <= Elems(ks);
      var d1 := Put(d, ks[0], vals[ks[0]]);
      assert d1.keys[..|d.keys|] == d.keys;
      PutAllPrefix(d1, ks[1..], vals);
      var r := PutAll(d1, ks[1..], vals);
      assert r.keys[..|d.keys|] == r.keys[..|d1.keys|][..|d.keys|];
    }
  }

  function NotIn(ks: seq<string>): string -> bool
  {
    k => k !in ks
  }

  /** Filters that agree on every element of `s` select the same elements. */
  lemma {:induction false} FilterAgree<T(!new)>(s: seq<T>, p: T -> bool, q: T -> bool)
    requires forall i :: 0 <= i < |s| ==> p(s[i]) == q(s[i])
    ensures Filter(s, p) == Filter(s, q)
  {
    if s != [] {
      FilterAgree(s[1..], p, q);
    }
  }

  lemma DistinctTail<T>(s: seq<T>)
    requires s != [] && Distinct(s)
    ensures Distinct(s[1..]) && s[0] !in s[1..]
  {
    forall i, j | 0 <= i < j < |s| - 1 ensures s[1..][i] != s[1..][j] {
      assert s[1..][i] == s[i + 1] && s[1..][j] == s[j + 1];
    }
    forall i | 0 <= i < |s| - 1 ensures s[1..][i] != s[0] {
      assert s[1..][i] == s[i + 1];
    }
  }

  /** A key just added to `ks` is not among distinct later keys, so it does
      not change which of them are new. */
  lemma NewKeyAgree(dk: seq<string>, k: string, rest: seq<string>)
    requires k !in rest
    ensures Filter(rest, NotIn(dk + [k])) == Filter(rest, NotIn(dk))
  {
    forall i | 0 <= i < |rest| ensures NotIn(dk + [k])(rest[i]) == NotIn(dk)(rest[i]) {
      assert rest[i] != k;
    }
    FilterAgree(rest, NotIn(dk + [k]), NotIn(dk));
  }

  /** One step of putting keys: `k` is new exactly when `dk` lacks it. */
  lemma {:induction false} PutKeysStep(dk: seq<string>, d1k: seq<string>, ks: seq<string>, out: seq<string>)
    requires ks != [] && ks[0] !in ks[1..]
    requires d1k == if ks[0] in dk then dk else dk + [ks[0]]
    requires out == d1k + Filter(ks[1..], NotIn(d1k))
    ensures out == dk + Filter(ks, NotIn(dk))
  {
    var p := NotIn(dk);
    assert Filter(ks, p) == (if p(ks[0]) then [ks[0]] else []) + Filter(ks[1..], p);
    if ks[0] in dk {
      assert Filter(ks, p) == Filter(ks[1..], p);
    } else {
      NewKeyAgree(dk, ks[0], ks[1..]);
      assert Filter(ks, p) == [ks[0]] + Filter(ks[1..], p);
      assert dk + Filter(ks, p) == (dk + [ks[0]]) + Filter(ks[1..], p);
    }
  }

  /** Putting distinct keys appends the new ones in their own order. */
  lemma {:induction false} PutAllKeys(d: Dict, ks: seq<string>, vals: map<string, Option<string>>)
    requires WellFormedDict(d) && Elems(ks) <= vals.Keys && Distinct(ks)
    ensures PutAll(d, ks, vals).keys == d.keys + Filter(ks, NotIn(d.keys))
    decreases |ks|
  {
    if ks != [] {
      assert Elems(ks[1..]) <= Elems(ks);
      DistinctTail(ks);
      var d1 := Put(d, ks[0], vals[ks[0]]);
      assert d1.keys == if ks[0] in d.keys then d.keys else d.keys + [ks[0]];
      PutAllKeys(d1, ks[1..], vals);
      PutKeysStep(d.keys, d1.keys, ks, PutAll(d1, ks[1..], vals).keys);
    }
  }

  lemma MapUnion(r: map<string, Option<string>>, a: map<string, Option<string>>, b: map<string, Option<string>>)
    requires forall k :: k in r <==> k in a || k in b
    requires forall k :: k in r ==> r[k] == if k in b then b[k] else a[k]
    ensures r == a + b
  {
  }

  /** `d.update(u)`: the keys of `u` take `u`'s values; the keys already in
      `d` keep their places and the new keys follow in `u`'s order. */
  function Update(d: Dict, u: Dict): (r: Dict)
    requires WellFormedDict(d) && WellFormedDict(u)
    ensures WellFormedDict(r)
    ensures r.values == d.values + u.values
    ensures |d.keys| <= |r.keys| && r.keys[..|d.keys|] == d.keys
    ensures r.keys[|d.keys|..] == Filter(u.keys, NotIn(d.keys))
  {
    PutAllKeys(d, u.keys, u.values);
    PutAllValues(d, u.keys, u.values);
    PutAllPrefix(d, u.keys, u.values);
    var r := PutAll(d, u.keys, u.values);
    MapUnion(r.values, d.values, u.values);
    r
  }

  /** `row.to_dict()` for a row of a table with columns `cols`. */
  function FromRow(row: Row, cols: seq<string>): (d: Dict)
    ensures WellFormedDict(d)
    ensures d.keys == Unique(cols)
    ensures forall c :: c in d.values <==> c in cols
    ensures forall c :: c in cols ==> d.values[c] == Cell(row, c)
  {
    Dict(Unique(cols), map c | c in cols :: Cell(row, c))
  }
}
