/**
 * A pandas DataFrame as the scripts use it when its columns are not fixed in
 * advance: named, typed columns of nullable cells, all of one height.
 * `Table` is the value; `DataFrame` is the mutable object that the scripts
 * drop columns from and assign columns to in place.
 */
module Frames {
  import opened Common

  /** The pandas dtypes the pipeline distinguishes. */
  datatype Dtype = Int64 | Float64 | Object | Category | Bool | DateTime

  /** One cell; `Null` is NaN/NaT/None. Timestamps are integer seconds. */
  datatype Cell = Null | Num(x: real) | Str(s: string) | Flag(b: bool) | Time(t: int)

  datatype Column = Column(name: string, dtype: Dtype, cells: seq<Cell>)

  datatype Table = Table(cols: seq<Column>, height: nat)

  /** Integer and float columns: dtype kind "i" or "f". */
  predicate IsNumeric(d: Dtype) { d == Int64 || d == Float64 }

  /** Object and category columns. */
  predicate IsCategorical(d: Dtype) { d == Object || d == Category }

  /** `df.columns` as a list of names. */
  function Names(cols: seq<Column>): (ns: seq<string>)
    ensures |ns| == |cols|
    ensures forall i :: 0 <= i < |cols| ==> ns[i] == cols[i].name
  {
    seq(|cols|, i requires 0 <= i < |cols| => cols[i].name)
  }

  /** `name in df.columns`. */
  predicate HasColumn(t: Table, name: string)
  {
    name in Names(t.cols)
  }

  /** Every column has `height` cells and no two columns share a name. */
  ghost predicate WellFormed(t: Table)
  {
    && (forall i :: 0 <= i < |t.cols| ==> |t.cols[i].cells| == t.height)
    && (forall i, j :: 0 <= i < j < |t.cols| ==> t.cols[i].name != t.cols[j].name)
  }

  /** Position of the first column called `name`. */
  function IndexOf(cols: seq<Column>, name: string): (k: nat)
    requires name in Names(cols)
    ensures k < |cols| && cols[k].name == name
    ensures forall j :: 0 <= j < k ==> cols[j].name != name
  {
    if cols[0].name == name then 0
    else
      assert name in Names(cols[1..]) by {
        var j :| 0 <= j < |cols| && Names(cols)[j] == name;
        assert Names(cols[1..])[j - 1] == name;
      }
      1 + IndexOf(cols[1..], name)
  }

  /** `df[name]`. */
  function Get(t: Table, name: string): Column
    requires HasColumn(t, name)
  {
    t.cols[IndexOf(t.cols, name)]
  }

  /** `df.drop(columns=[name])`: every column of that name goes, the others keep their order. */
  function DropNamed(cols: seq<Column>, name: string): (r: seq<Column>)
    ensures name !in Names(r)
    ensures forall c :: c in r <==> c in cols && c.name != name
  {
    if cols == [] then []
    else (if cols[0].name == name then [] else [cols[0]]) + DropNamed(cols[1..], name)
  }

  function DropColumn(t: Table, name: string): Table
  {
    Table(DropNamed(t.cols, name), t.height)
  }

  /**
   * `df[c.name] = c.cells`: an existing column is replaced where it stands,
   * a new one is appended at the end.
   */
  function Assign(t: Table, c: Column): (r: Table)
    ensures r.height == t.height
    ensures HasColumn(r, c.name)
  {
    if HasColumn(t, c.name) then
      var k := IndexOf(t.cols, c.name);
      var r := Table(t.cols[k := c], t.height);
      assert Names(r.cols)[k] == c.name;
      r
    else
      var r := Table(t.cols + [c], t.height);
      assert Names(r.cols)[|t.cols|] == c.name;
      r
  }

  /** Assigning one column leaves every column of another name as it was. */
  lemma AssignKeepsOthers(t: Table, c: Column, name: string)
    requires name != c.name
    ensures HasColumn(Assign(t, c), name) <==> HasColumn(t, name)
    ensures HasColumn(t, name) ==> Get(Assign(t, c), name) == Get(t, name)
  {
    var r := Assign(t, c);
    if HasColumn(t, name) {
      var k := IndexOf(t.cols, name);
      assert Names(r.cols)[k] == name;
      var k' := IndexOf(r.cols, name);
      assert k' == k;
    }
    if HasColumn(r, name) {
      var j :| 0 <= j < |r.cols| && Names(r.cols)[j] == name;
      assert Names(t.cols)[j] == name;
    }
  }

  /** Assigning a column makes it the value of its name. */
  lemma AssignGet(t: Table, c: Column)
    ensures Get(Assign(t, c), c.name) == c
  {
    var r := Assign(t, c);
    var k := IndexOf(r.cols, c.name);
    if HasColumn(t, c.name) {
      var k0 := IndexOf(t.cols, c.name);
      assert r.cols[k0].name == c.name;
      assert forall j :: 0 <= j < k0 ==> r.cols[j] == t.cols[j];
      assert k == k0;
    } else {
      assert k == |t.cols|;
    }
  }

  /** In a well-formed table a column is what its name looks up. */
  /** A column of a well-formed table has one cell per row. */
  lemma GetLength(t: Table, name: string)
    requires WellFormed(t) && HasColumn(t, name)
    ensures |Get(t, name).cells| == t.height
  {
  }

  lemma GetOfMember(t: Table, k: nat)
    requires WellFormed(t) && k < |t.cols|
    ensures HasColumn(t, t.cols[k].name) && Get(t, t.cols[k].name) == t.cols[k]
  {
    assert Names(t.cols)[k] == t.cols[k].name;
  }

  /** Assigning keeps the existing columns' names in their places. */
  lemma AssignNamesPrefix(t: Table, c: Column)
    ensures |Assign(t, c).cols| >= |t.cols|
    ensures Names(Assign(t, c).cols)[..|t.cols|] == Names(t.cols)
  {
  }

  /** A column of a well-formed table is what its name looks up. */
  lemma GetOfIn(t: Table, c: Column)
    requires WellFormed(t) && c in t.cols
    ensures HasColumn(t, c.name) && Get(t, c.name) == c
  {
    var k :| 0 <= k < |t.cols| && t.cols[k] == c;
    GetOfMember(t, k);
  }

  lemma NamesAppend(a: seq<Column>, b: seq<Column>)
    ensures Names(a + b) == Names(a) + Names(b)
  {
  }

  /** Assigning a full-height column keeps a table well formed. */
  lemma AssignWellFormed(t: Table, c: Column)
    requires WellFormed(t) && |c.cells| == t.height
    ensures WellFormed(Assign(t, c))
  {
    var r := Assign(t, c);
    if HasColumn(t, c.name) {
      var k := IndexOf(t.cols, c.name);
      assert forall j :: 0 <= j < |r.cols| ==> r.cols[j].name == t.cols[j].name;
    } else {
      forall i, j | 0 <= i < j < |r.cols| ensures r.cols[i].name != r.cols[j].name {
        if j == |t.cols| {
          assert Names(t.cols)[i] == t.cols[i].name;
        }
      }
    }
  }

  /** Dropping a name the table does not have changes nothing. */
  lemma {:induction false} DropAbsent(cols: seq<Column>, name: string)
    requires name !in Names(cols)
    ensures DropNamed(cols, name) == cols
  {
    if cols != [] {
      var rest := cols[1..];
      assert cols[0].name != name by {
        assert Names(cols)[0] == cols[0].name;
      }
      assert name !in Names(rest) by {
        forall j | 0 <= j < |rest| ensures Names(rest)[j] != name {
          assert Names(cols)[j + 1] == rest[j].name;
        }
      }
      DropAbsent(rest, name);
      assert DropNamed(cols, name) == [cols[0]] + DropNamed(rest, name);
      assert cols == [cols[0]] + rest;
    }
  }

  /** Dropping columns keeps a table well formed. */
  lemma {:induction false} DropNamedDistinct(cols: seq<Column>, name: string)
    requires forall i, j :: 0 <= i < j < |cols| ==> cols[i].name != cols[j].name
    ensures forall i, j :: 0 <= i < j < |DropNamed(cols, name)| ==>
      DropNamed(cols, name)[i].name != DropNamed(cols, name)[j].name
  {
    if cols != [] {
      var rest := cols[1..];
      DropNamedDistinct(rest, name);
      var r := DropNamed(rest, name);
      forall c | c in r ensures c.name != cols[0].name {
        var j :| 0 <= j < |rest| && rest[j] == c;
        assert cols[j + 1] == c;
      }
    }
  }

  lemma DropWellFormed(t: Table, name: string)
    requires WellFormed(t)
    ensures WellFormed(DropColumn(t, name))
  {
    DropNamedDistinct(t.cols, name);
    var r := DropNamed(t.cols, name);
    forall i | 0 <= i < |r| ensures |r[i].cells| == t.height {
      assert r[i] in t.cols;
    }
  }

  /** `df[names]`: those columns, in that order. */
  function Select(t: Table, names: seq<string>): (r: Table)
    requires forall n :: n in names ==> HasColumn(t, n)
    ensures Names(r.cols) == names
    ensures r.height == t.height
  {
    Table(seq(|names|, i requires 0 <= i < |names| => Get(t, names[i])), t.height)
  }

  /** A column of `n` integer zeros (`df[col] = 0`). */
  function Zeros(name: string, n: nat): (c: Column)
    ensures |c.cells| == n && c.name == name
  {
    Column(name, Int64, seq(n, _ => Num(0.0)))
  }

  /** Number of null cells (`isna().sum()`). */
  function NullCount(cells: seq<Cell>): nat
  {
    Count(cells, (c: Cell) => c == Null)
  }

  /** No null cell is counted exactly when there is none. */
  lemma {:induction false} NullCountZero(cells: seq<Cell>)
    ensures NullCount(cells) == 0 <==> forall i :: 0 <= i < |cells| ==> cells[i] != Null
  {
    if cells != [] {
      NullCountZero(cells[1..]);
      assert forall i :: 1 <= i < |cells| ==> cells[i] == cells[1..][i - 1];
    }
  }

  lemma {:induction false} NullCountAppend(a: seq<Cell>, b: seq<Cell>)
    ensures NullCount(a + b) == NullCount(a) + NullCount(b)
  {
    if a == [] {
      assert a + b == b;
    } else {
      assert (a + b)[1..] == a[1..] + b;
      NullCountAppend(a[1..], b);
    }
  }

  /** Distinct non-null cells (`nunique()`). */
  function DistinctNonNull(cells: seq<Cell>): set<Cell>
  {
    set c | c in cells && c != Null
  }

  /** Non-null distinct values and nulls together never outnumber the rows. */
  lemma {:induction false} DistinctBound(cells: seq<Cell>)
    ensures |DistinctNonNull(cells)| + NullCount(cells) <= |cells|
  {
    if cells != [] {
      DistinctBound(cells[1..]);
      DistinctNonNullCons(cells);
    }
  }

  /** Without nulls or repeats, every row is a distinct value. */
  lemma {:induction false} DistinctExact(cells: seq<Cell>)
    requires forall i :: 0 <= i < |cells| ==> cells[i] != Null
    requires forall i, j :: 0 <= i < j < |cells| ==> cells[i] != cells[j]
    ensures |DistinctNonNull(cells)| == |cells|
  {
    if cells != [] {
      DistinctExact(cells[1..]);
      DistinctNonNullCons(cells);
      assert cells[0] !in DistinctNonNull(cells[1..]);
    }
  }

  lemma DistinctNonNullCons(cells: seq<Cell>)
    requires cells != []
    ensures DistinctNonNull(cells) ==
      DistinctNonNull(cells[1..]) + (if cells[0] != Null then {cells[0]} else {})
  {
    assert forall c :: c in cells <==> c == cells[0] || c in cells[1..];
  }

  /** pandas comparison `a < b`: false whenever a side is NaN/NaT or the kinds differ. */
  predicate CellLess(a: Cell, b: Cell)
  {
    || (a.Num? && b.Num? && a.x < b.x)
    || (a.Time? && b.Time? && a.t < b.t)
    || (a.Str? && b.Str? && a.s != b.s && StrBefore(a.s, b.s))
  }

  /** Strict lexicographic order of strings. */
  predicate StrBefore(a: string, b: string)
  {
    if b == [] then false
    else if a == [] then true
    else if a[0] != b[0] then a[0] < b[0]
    else StrBefore(a[1..], b[1..])
  }

  /**
   * A DataFrame object whose columns the scripts change in place
   * (`df.drop(..., inplace=True)`, `df[col] = ...`).
   */
  class DataFrame {
    var cols: seq<Column>
    var height: nat

    function Value(): Table
      reads this
    {
      Table(cols, height)
    }

    constructor (t: Table)
      ensures Value() == t
    {
      cols := t.cols;
      height := t.height;
    }

    /** `df.drop(columns=[name], inplace=True)`. */
    method DropInPlace(name: string)
      modifies this
      ensures Value() == DropColumn(old(Value()), name)
    {
      cols := DropNamed(cols, name);
    }

    /** `df[c.name] = c.cells`. */
    method AssignInPlace(c: Column)
      modifies this
      ensures Value() == Assign(old(Value()), c)
    {
      var r := Assign(Value(), c);
      cols := r.cols;
    }

    /** Replaces the column at position `k` (`df[df.columns[k]] = ...`). */
    method ReplaceAt(k: nat, c: Column)
      requires k < |cols|
      modifies this
      ensures cols == old(cols)[k := c] && height == old(height)
    {
      cols := cols[k := c];
    }
  }
}
