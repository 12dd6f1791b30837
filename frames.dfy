/** Tables as the scripts see them after `pd.read_excel`: a header of column
    labels and rows of cells, one cell per column. A `DataFrame` object holds
    such a table and is changed in place by column assignment (`df[c] = v`) and
    by masked assignment (`df.loc[mask, c] = v`); boolean indexing
    (`df[mask]`), `dropna`, `rename` and column selection build new objects. */
module Frames {
  import opened Common
  import opened Strings

  /** A spreadsheet cell: empty (`NaN`), text, or an integer. */
  datatype Cell = Missing | Str(s: string) | Num(n: int)

  type Row = seq<Cell>

  datatype Frame = Frame(columns: seq<string>, rows: seq<Row>)
  {
    /** Every row has one cell per column. */
    predicate Rectangular()
    {
      forall i :: 0 <= i < |rows| ==> |rows[i]| == |columns|
    }
  }

  /** `str(x)`, as `astype(str)` renders a cell. */
  function AsStr(c: Cell): string
  {
    match c
    case Missing => "nan"
    case Str(s) => s
    case Num(n) => IntToString(n)
  }

  /** `notnull()` on one cell. */
  predicate IsPresent(c: Cell)
  {
    c != Missing
  }

  /** The row test of `dropna(subset=[c])` for the column `c` at `j`. */
  function PresentAt(j: nat): Row -> bool
  {
    (row: Row) => j < |row| && IsPresent(row[j])
  }

  /** `fillna("")` on one cell. */
  function FillEmpty(c: Cell): (r: Cell)
    ensures r != Missing
    ensures c != Missing ==> r == c
  {
    if c == Missing then Str("") else c
  }

  /** Position of the column labelled `name`; a table read by `read_excel` has
      distinct labels, so this is the only one. */
  function IndexOf(columns: seq<string>, name: string): (r: Option<nat>)
    ensures r.None? <==> name !in columns
    ensures r.Some? ==> r.value < |columns| && columns[r.value] == name && name !in columns[..r.value]
  {
    if name !in columns then None
    else
      var i := FirstIndexOf(columns, name);
      Some(i)
  }

  function FirstIndexOf<T(==)>(s: seq<T>, x: T): (i: nat)
    requires x in s
    ensures i < |s| && s[i] == x && x !in s[..i]
  {
    if s[0] == x then 0 else FirstIndexOf(s[1..], x) + 1
  }

  /** The cells of column `j`, top to bottom. */
  function ColumnAt(t: Frame, j: nat): (col: seq<Cell>)
    requires t.Rectangular() && j < |t.columns|
    ensures |col| == |t.rows| && forall i :: 0 <= i < |col| ==> col[i] == t.rows[i][j]
  {
    seq(|t.rows|, i requires 0 <= i < |t.rows| => t.rows[i][j])
  }

  /** `df[name]`: the column, or the `KeyError` pandas raises. */
  function Column(t: Frame, name: string): (r: Result<seq<Cell>>)
    requires t.Rectangular()
    ensures r.Err? <==> name !in t.columns
    ensures r.Err? ==> r.error == KeyError(name)
    ensures r.Ok? ==> |r.value| == |t.rows|
  {
    match IndexOf(t.columns, name)
    case None => Err(KeyError(name))
    case Some(j) => Ok(ColumnAt(t, j))
  }

  function Map<T, U>(s: seq<T>, f: T -> U): (r: seq<U>)
    ensures |r| == |s|
  {
    seq(|s|, i requires 0 <= i < |s| => f(s[i]))
  }

  /** The elements of `s` that satisfy `keep`, in their order. */
  function Filter<T>(s: seq<T>, keep: T -> bool): seq<T>
    decreases |s|
  {
    if s == [] then [] else (if keep(s[0]) then [s[0]] else []) + Filter(s[1..], keep)
  }

  /** `m1 | m2` on two masks. */
  function Or(m1: seq<bool>, m2: seq<bool>): (m: seq<bool>)
    requires |m1| == |m2|
    ensures |m| == |m1| && forall i :: 0 <= i < |m| ==> m[i] == (m1[i] || m2[i])
  {
    seq(|m1|, i requires 0 <= i < |m1| => m1[i] || m2[i])
  }

  /** `~m` on a mask. */
  function Not(m: seq<bool>): (r: seq<bool>)
    ensures |r| == |m| && forall i :: 0 <= i < |r| ==> r[i] == !m[i]
  {
    seq(|m|, i requires 0 <= i < |m| => !m[i])
  }

  /** How many entries of the mask are true. */
  function TrueCount(mask: seq<bool>): nat
  {
    if mask == [] then 0 else (if mask[0] then 1 else 0) + TrueCount(mask[1..])
  }

  /** Boolean indexing: the elements whose mask entry is true, in their order. */
  function Select<T>(s: seq<T>, mask: seq<bool>): (r: seq<T>)
    requires |mask| == |s|
    ensures |r| == TrueCount(mask) && |r| <= |s|
    decreases |s|
  {
    if s == [] then [] else (if mask[0] then [s[0]] else []) + Select(s[1..], mask[1..])
  }

  lemma {:induction false} FilterMembers<T>(s: seq<T>, keep: T -> bool)
    ensures forall x :: x in Filter(s, keep) <==> x in s && keep(x)
    decreases |s|
  {
    if s != [] {
      FilterMembers(s[1..], keep);
      assert s == [s[0]] + s[1..];
    }
  }

  /** Filtering deletes elements and keeps the order of the rest. */
  lemma {:induction false} FilterSubsequence<T>(s: seq<T>, keep: T -> bool)
    ensures IsSubsequence(Filter(s, keep), s)
    decreases |s|
  {
    if s != [] {
      FilterSubsequence(s[1..], keep);
      var rest := Filter(s[1..], keep);
      if keep(s[0]) {
        SubsequenceCons(s[0], rest, s[1..]);
        assert [s[0]] + s[1..] == s;
      } else {
        assert Filter(s, keep) == rest;
        SubsequenceSkip(rest, [s[0]], s[1..]);
        assert [s[0]] + s[1..] == s;
      }
    }
  }

  lemma {:induction false} FilterLength<T>(s: seq<T>, keep: T -> bool)
    ensures |Filter(s, keep)| <= |s|
    ensures |Filter(s, keep)| == |s| <==> forall i :: 0 <= i < |s| ==> keep(s[i])
    decreases |s|
  {
    if s != [] {
      FilterLength(s[1..], keep);
      if forall i :: 0 <= i < |s| ==> keep(s[i]) {
        assert forall i :: 0 <= i < |s| - 1 ==> keep(s[1..][i]);
      }
      if forall i :: 0 <= i < |s| - 1 ==> keep(s[1..][i]) {
        assert forall i :: 1 <= i < |s| ==> keep(s[i]) by {
          forall i | 1 <= i < |s| ensures keep(s[i]) {
            assert s[i] == s[1..][i - 1];
          }
        }
      }
    }
  }

  /** The images of the kept elements are exactly what mapping the filtered sequence holds. */
  lemma MapFilterMembers<T, U>(s: seq<T>, keep: T -> bool, f: T -> U)
    ensures forall i :: 0 <= i < |s| && keep(s[i]) ==> f(s[i]) in Map(Filter(s, keep), f)
    ensures forall y :: y in Map(Filter(s, keep), f) ==> exists i :: 0 <= i < |s| && keep(s[i]) && y == f(s[i])
  {
    var kept := Filter(s, keep);
    FilterMembers(s, keep);
    forall i | 0 <= i < |s| && keep(s[i])
      ensures f(s[i]) in Map(kept, f)
    {
      var k :| 0 <= k < |kept| && kept[k] == s[i];
      assert Map(kept, f)[k] == f(s[i]);
    }
    forall y | y in Map(kept, f)
      ensures exists i :: 0 <= i < |s| && keep(s[i]) && y == f(s[i])
    {
      var k :| 0 <= k < |kept| && y == f(kept[k]);
      assert kept[k] in kept;
      var i :| 0 <= i < |s| && s[i] == kept[k];
    }
  }

  /** Mapping both sides keeps a subsequence a subsequence. */
  lemma {:induction false} MapSubsequence<T, U>(sub: seq<T>, s: seq<T>, f: T -> U)
    requires IsSubsequence(sub, s)
    ensures IsSubsequence(Map(sub, f), Map(s, f))
    decreases |s|
  {
    if sub != [] {
      assert Map(s, f)[1..] == Map(s[1..], f);
      if sub[0] == s[0] && IsSubsequence(sub[1..], s[1..]) {
        MapSubsequence(sub[1..], s[1..], f);
        assert Map(sub, f)[1..] == Map(sub[1..], f);
      } else {
        MapSubsequence(sub, s[1..], f);
      }
    }
  }

  /** A mask computed row by row from a predicate selects what filtering by it keeps. */
  lemma {:induction false} SelectByPredicate<T>(s: seq<T>, mask: seq<bool>, keep: T -> bool)
    requires |mask| == |s|
    requires forall i :: 0 <= i < |s| ==> mask[i] == keep(s[i])
    ensures Select(s, mask) == Filter(s, keep)
    decreases |s|
  {
    if s != [] {
      assert mask[0] == keep(s[0]);
      SelectByPredicate(s[1..], mask[1..], keep);
    }
  }

  /** Filtering a changed sequence keeps what filtering the original keeps when
      the change never decides the outcome and touches only elements that go. */
  lemma {:induction false} FilterSameSurvivors<T>(s: seq<T>, s': seq<T>, keep: T -> bool, keep': T -> bool)
    requires |s'| == |s|
    requires forall i :: 0 <= i < |s| ==> keep'(s'[i]) == keep(s[i])
    requires forall i :: 0 <= i < |s| && keep(s[i]) ==> s'[i] == s[i]
    ensures Filter(s', keep') == Filter(s, keep)
    decreases |s|
  {
    if s != [] {
      assert keep'(s'[0]) == keep(s[0]);
      forall i | 0 <= i < |s| - 1
        ensures keep'(s'[1..][i]) == keep(s[1..][i])
        ensures keep(s[1..][i]) ==> s'[1..][i] == s[1..][i]
      {
        assert s'[1..][i] == s'[i + 1] && s[1..][i] == s[i + 1];
      }
      FilterSameSurvivors(s[1..], s'[1..], keep, keep');
    }
  }

  /** Selecting two aligned sequences with the same mask keeps them aligned. */
  lemma {:induction false} SelectAligned<T, U>(s: seq<T>, t: seq<U>, f: T -> U, mask: seq<bool>)
    requires |s| == |t| == |mask|
    requires forall i :: 0 <= i < |s| ==> t[i] == f(s[i])
    ensures |Select(s, mask)| == |Select(t, mask)|
    ensures Select(t, mask) == Map(Select(s, mask), f)
    decreases |s|
  {
    if s != [] {
      SelectAligned(s[1..], t[1..], f, mask[1..]);
    }
  }

  /** `df[name] = values`: the column is overwritten where it exists and
      appended as the last column otherwise. */
  function Assigned(t: Frame, name: string, values: seq<Cell>): (r: Frame)
    requires t.Rectangular() && |values| == |t.rows|
    ensures r.Rectangular() && |r.rows| == |t.rows|
    ensures r.columns == if name in t.columns then t.columns else t.columns + [name]
  {
    match IndexOf(t.columns, name)
    case Some(j) => Frame(t.columns, seq(|t.rows|, i requires 0 <= i < |t.rows| => t.rows[i][j := values[i]]))
    case None => Frame(t.columns + [name], seq(|t.rows|, i requires 0 <= i < |t.rows| => t.rows[i] + [values[i]]))
  }

  /** Reading back an assigned column gives the values assigned. */
  lemma AssignedReadBack(t: Frame, name: string, values: seq<Cell>)
    requires t.Rectangular() && |values| == |t.rows|
    ensures Column(Assigned(t, name, values), name) == Ok(values)
  {
    var r := Assigned(t, name, values);
    var j := if name in t.columns then IndexOf(t.columns, name).value else |t.columns|;
    assert IndexOf(r.columns, name) == Some(j);
    assert ColumnAt(r, j) == values;
  }

  /** Assigning a column the table lacks appends one cell to every row. */
  lemma AssignedNew(t: Frame, name: string, values: seq<Cell>)
    requires t.Rectangular() && |values| == |t.rows| && name !in t.columns
    ensures forall i :: 0 <= i < |t.rows| ==> Assigned(t, name, values).rows[i] == t.rows[i] + [values[i]]
  {
  }

  /** `df.loc[mask, name] = values`, the right-hand side aligned row by row:
      masked rows take the new value; where the column did not exist it is
      appended, empty on the rows the mask leaves out. */
  function AssignedWhere(t: Frame, mask: seq<bool>, name: string, values: seq<Cell>): (r: Frame)
    requires t.Rectangular() && |mask| == |values| == |t.rows|
    ensures r.Rectangular() && |r.rows| == |t.rows|
  {
    match IndexOf(t.columns, name)
    case Some(j) =>
      Frame(t.columns, seq(|t.rows|, i requires 0 <= i < |t.rows| =>
        t.rows[i][j := if mask[i] then values[i] else t.rows[i][j]]))
    case None =>
      Frame(t.columns + [name], seq(|t.rows|, i requires 0 <= i < |t.rows| =>
        t.rows[i] + [if mask[i] then values[i] else Missing]))
  }

  /** `df[mask]` */
  function Where(t: Frame, mask: seq<bool>): (r: Frame)
    requires t.Rectangular() && |mask| == |t.rows|
    ensures r.Rectangular()
  {
    var rows := Select(t.rows, mask);
    SelectAll(t.rows, mask, (row: Row) => |row| == |t.columns|);
    Frame(t.columns, rows)
  }

  /** What holds of every element holds of every selected one. */
  lemma {:induction false} SelectAll<T>(s: seq<T>, mask: seq<bool>, p: T -> bool)
    requires |mask| == |s|
    requires forall i :: 0 <= i < |s| ==> p(s[i])
    ensures forall i :: 0 <= i < |Select(s, mask)| ==> p(Select(s, mask)[i])
    decreases |s|
  {
    if s != [] {
      SelectAll(s[1..], mask[1..], p);
    }
  }

  /** `dropna(subset=[c])` keeps the rows whose cell in `c` is present. */
  lemma DropMissingRows(t: Frame, j: nat)
    requires t.Rectangular() && j < |t.columns|
    ensures Where(t, Map(ColumnAt(t, j), IsPresent)).rows == Filter(t.rows, PresentAt(j))
  {
    SelectByPredicate(t.rows, Map(ColumnAt(t, j), IsPresent), PresentAt(j));
  }

  /** Filtering rows by a test on the cell at `j` keeps them in order, keeps a
      row iff its cell passes, and leaves only rows whose cell passes. */
  lemma FilterByCell(rows: seq<Row>, j: nat, keep: Row -> bool, ok: Cell -> bool)
    requires forall i :: 0 <= i < |rows| ==> j < |rows[i]|
    requires forall r: Row :: keep(r) == (j < |r| && ok(r[j]))
    ensures IsSubsequence(Filter(rows, keep), rows)
    ensures forall i :: 0 <= i < |rows| ==> (rows[i] in Filter(rows, keep) <==> ok(rows[i][j]))
    ensures forall k :: 0 <= k < |Filter(rows, keep)| ==> j < |Filter(rows, keep)[k]| && ok(Filter(rows, keep)[k][j])
  {
    FilterSubsequence(rows, keep);
    FilterMembers(rows, keep);
    forall k | 0 <= k < |Filter(rows, keep)|
      ensures j < |Filter(rows, keep)[k]| && ok(Filter(rows, keep)[k][j])
    {
      assert keep(Filter(rows, keep)[k]);
    }
  }

  /** `rename(columns={from: to})` */
  function Renamed(t: Frame, from: string, to: string): (r: Frame)
    ensures |r.columns| == |t.columns| && r.rows == t.rows
    ensures forall k :: 0 <= k < |r.columns| ==> r.columns[k] == (if t.columns[k] == from then to else t.columns[k])
  {
    Frame(Map(t.columns, (c: string) => if c == from then to else c), t.rows)
  }

  /** The entries of `xs` whose label in `labels` satisfies `keep`, in order. */
  function Pick<T>(labels: seq<string>, xs: seq<T>, keep: string -> bool): (r: seq<T>)
    requires |labels| == |xs|
    ensures |r| == |Filter(labels, keep)|
    decreases |xs|
  {
    if xs == [] then [] else (if keep(labels[0]) then [xs[0]] else []) + Pick(labels[1..], xs[1..], keep)
  }

  /** The label test `c == name`. */
  function Labelled(name: string): string -> bool
  {
    (c: string) => c == name
  }

  /** The label test `c != name`. */
  function Unlabelled(name: string): string -> bool
  {
    (c: string) => c != name
  }

  /** One row or the header, reordered: the entries not labelled `name`, then those labelled `name`. */
  function NameLast<T>(labels: seq<string>, xs: seq<T>, name: string): (r: seq<T>)
    requires |labels| == |xs|
    ensures |r| == |labels|
  {
    FilterSplit(labels, name);
    Pick(labels, xs, Unlabelled(name)) + Pick(labels, xs, Labelled(name))
  }

  /** A header splits into the labels other than `name` and the copies of `name`. */
  lemma {:induction false} FilterSplit(labels: seq<string>, name: string)
    ensures |Filter(labels, Unlabelled(name))| + |Filter(labels, Labelled(name))| == |labels|
    decreases |labels|
  {
    if labels != [] {
      FilterSplit(labels[1..], name);
    }
  }

  /** Picking labels by their own label is filtering them. */
  lemma {:induction false} PickLabels(labels: seq<string>, keep: string -> bool)
    ensures Pick(labels, labels, keep) == Filter(labels, keep)
    decreases |labels|
  {
    if labels != [] {
      PickLabels(labels[1..], keep);
    }
  }

  lemma {:induction false} PickAppend<T>(l1: seq<string>, x1: seq<T>, l2: seq<string>, x2: seq<T>, keep: string -> bool)
    requires |l1| == |x1| && |l2| == |x2|
    ensures Pick(l1 + l2, x1 + x2, keep) == Pick(l1, x1, keep) + Pick(l2, x2, keep)
    decreases |x1|
  {
    if x1 == [] {
      assert l1 + l2 == l2 && x1 + x2 == x2;
    } else {
      var l, x := l1 + l2, x1 + x2;
      assert l[0] == l1[0] && x[0] == x1[0];
      assert l[1..] == l1[1..] + l2 && x[1..] == x1[1..] + x2;
      var head := if keep(l1[0]) then [x1[0]] else [];
      PickAppend(l1[1..], x1[1..], l2, x2, keep);
      assert Pick(l, x, keep) == head + Pick(l[1..], x[1..], keep);
      assert Pick(l1, x1, keep) == head + Pick(l1[1..], x1[1..], keep);
    }
  }


  lemma {:induction false} PickAll<T>(labels: seq<string>, xs: seq<T>, keep: string -> bool)
    requires |labels| == |xs|
    requires forall k :: 0 <= k < |labels| ==> keep(labels[k])
    ensures Pick(labels, xs, keep) == xs
    decreases |xs|
  {
    if xs != [] {
      PickAll(labels[1..], xs[1..], keep);
    }
  }

  lemma {:induction false} PickNone<T>(labels: seq<string>, xs: seq<T>, keep: string -> bool)
    requires |labels| == |xs|
    requires forall k :: 0 <= k < |labels| ==> !keep(labels[k])
    ensures Pick(labels, xs, keep) == []
    decreases |xs|
  {
    if xs != [] {
      PickNone(labels[1..], xs[1..], keep);
    }
  }

  /** Moving `name` last in a row of a table without a `name` column, to which a
      `name` column and then another were appended, swaps the two appended cells. */
  lemma NameLastSwapsAppended<T>(labels: seq<string>, xs: seq<T>, name: string, other: string, a: T, b: T)
    requires |labels| == |xs| && name !in labels && other != name
    ensures NameLast(labels + [name, other], xs + [a, b], name) == xs + [b, a]
  {
    var others := Unlabelled(name);
    var named := Labelled(name);
    PickAppend(labels, xs, [name, other], [a, b], others);
    PickAppend(labels, xs, [name, other], [a, b], named);
    PickAll(labels, xs, others);
    PickNone(labels, xs, named);
    assert Pick([name, other], [a, b], others) == [b];
    assert Pick([name, other], [a, b], named) == [a];
  }

  /** `df[[c for c in df.columns if c != name] + [name]]`: every column labelled
      `name` moves to the end, the others keep their order. */
  function MovedLast(t: Frame, name: string): (r: Frame)
    requires t.Rectangular()
    ensures r.Rectangular() && |r.rows| == |t.rows|
  {
    Frame(NameLast(t.columns, t.columns, name),
          seq(|t.rows|, i requires 0 <= i < |t.rows| => NameLast(t.columns, t.rows[i], name)))
  }

  lemma {:induction false} FilterAllEqual(labels: seq<string>, name: string)
    ensures forall x :: x in Filter(labels, Labelled(name)) ==> x == name
    ensures name in labels ==> Filter(labels, Labelled(name)) != []
    decreases |labels|
  {
    if labels != [] {
      FilterAllEqual(labels[1..], name);
      if labels[0] != name {
        assert name in labels ==> name in labels[1..];
      }
    }
  }

  /** After moving `name` last, the header is the other labels in order followed
      by the copies of `name`; when there is one, the last column is `name`. */
  lemma MovedLastHeader(t: Frame, name: string)
    requires t.Rectangular()
    ensures MovedLast(t, name).columns == Filter(t.columns, Unlabelled(name)) + Filter(t.columns, Labelled(name))
    ensures name in t.columns ==> |MovedLast(t, name).columns| > 0 && MovedLast(t, name).columns[|MovedLast(t, name).columns| - 1] == name
  {
    PickLabels(t.columns, Unlabelled(name));
    PickLabels(t.columns, Labelled(name));
    FilterAllEqual(t.columns, name);
    var named := Filter(t.columns, Labelled(name));
    if named != [] {
      assert named[|named| - 1] in named;
    }
  }

  /** The `DataFrame` object of one script run. */
  class DataFrame {
    var columns: seq<string>
    var rows: seq<Row>

    function Value(): Frame
      reads this
    {
      Frame(columns, rows)
    }

    predicate Valid()
      reads this
    {
      Value().Rectangular()
    }

    /** `pd.read_excel`: a frame holding the table read. */
    constructor (t: Frame)
      requires t.Rectangular()
      ensures Valid() && Value() == t
    {
      columns := t.columns;
      rows := t.rows;
    }

    /** `df.columns = labels` */
    method SetColumns(labels: seq<string>)
      requires Valid() && |labels| == |columns|
      modifies this
      ensures Valid() && Value() == Frame(labels, old(rows))
    {
      columns := labels;
    }

    /** `df[name]` */
    method Get(name: string) returns (r: Result<seq<Cell>>)
      requires Valid()
      ensures r == Column(Value(), name)
    {
      r := Column(Value(), name);
    }

    /** `df[name] = values` */
    method Assign(name: string, values: seq<Cell>)
      requires Valid() && |values| == |rows|
      modifies this
      ensures Valid() && Value() == Assigned(old(Value()), name, values)
    {
      var t := Assigned(Value(), name, values);
      columns, rows := t.columns, t.rows;
    }

    /** `df.loc[mask, name] = values` */
    method AssignWhere(mask: seq<bool>, name: string, values: seq<Cell>)
      requires Valid() && |mask| == |values| == |rows|
      modifies this
      ensures Valid() && Value() == AssignedWhere(old(Value()), mask, name, values)
    {
      var t := AssignedWhere(Value(), mask, name, values);
      columns, rows := t.columns, t.rows;
    }

    /** `df[mask]` */
    method Filtered(mask: seq<bool>) returns (r: DataFrame)
      requires Valid() && |mask| == |rows|
      ensures fresh(r) && r.Valid() && r.Value() == Where(Value(), mask)
    {
      r := new DataFrame(Where(Value(), mask));
    }

    /** `df.dropna(subset=[name])`, for a column that exists. */
    method DropMissing(name: string) returns (r: DataFrame)
      requires Valid() && name in columns
      ensures fresh(r) && r.Valid()
      ensures r.Value() == Where(Value(), Map(Column(Value(), name).value, IsPresent))
    {
      var col := Get(name);
      r := Filtered(Map(col.value, IsPresent));
    }

    /** `df.rename(columns={from: to})` */
    method Rename(from: string, to: string) returns (r: DataFrame)
      requires Valid()
      ensures fresh(r) && r.Valid() && r.Value() == Renamed(Value(), from, to)
    {
      r := new DataFrame(Renamed(Value(), from, to));
    }

    /** `df[[c for c in df.columns if c != name] + [name]]` */
    method MoveLast(name: string) returns (r: DataFrame)
      requires Valid()
      ensures fresh(r) && r.Valid() && r.Value() == MovedLast(Value(), name)
    {
      r := new DataFrame(MovedLast(Value(), name));
    }
  }
}
