/** The shape of the SQL the models issue, as far as the model needs it: the
    `SET` list and bound values of an `UPDATE`, and selection of table rows in
    ascending id order (the order of insertion). */
module Sql {

  /** A bound parameter value. `SqlJson` is the `JSON.stringify` text of a list
      of strings, kept as the list it encodes. */
  datatype SqlValue = SqlText(text: string) | SqlInt(number: int) | SqlBool(flag: bool) | SqlJson(items: seq<string>)

  /** One `column = ?` entry of a `SET` list with the value bound to it;
      each table names its columns by a datatype of its own. */
  datatype Assignment<C> = Assignment(column: C, value: SqlValue)

  /** An issued `UPDATE ... SET <setClauses>, updated_at = CURRENT_TIMESTAMP
      WHERE id = ?` with its bound values (the id last). */
  datatype UpdateStatement = UpdateStatement(setClauses: seq<string>, values: seq<SqlValue>)

  /** `"<column> = ?"`, `name` giving the column's SQL name. */
  function SetClause<C>(a: Assignment<C>, name: C -> string): string {
    name(a.column) + " = ?"
  }

  function SetClauses<C>(a: seq<Assignment<C>>, name: C -> string): (r: seq<string>)
    ensures |r| == |a|
    ensures forall i :: 0 <= i < |a| ==> r[i] == SetClause(a[i], name)
  {
    seq(|a|, i requires 0 <= i < |a| => SetClause(a[i], name))
  }

  function Values<C>(a: seq<Assignment<C>>): (r: seq<SqlValue>)
    ensures |r| == |a|
    ensures forall i :: 0 <= i < |a| ==> r[i] == a[i].value
  {
    seq(|a|, i requires 0 <= i < |a| => a[i].value)
  }

  function Columns<C>(a: seq<Assignment<C>>): (r: seq<C>)
    ensures |r| == |a|
    ensures forall i :: 0 <= i < |a| ==> r[i] == a[i].column
  {
    seq(|a|, i requires 0 <= i < |a| => a[i].column)
  }

  lemma ColumnsAppend<C>(a: seq<Assignment<C>>, b: seq<Assignment<C>>)
    ensures Columns(a + b) == Columns(a) + Columns(b)
  {
  }

  /** The columns of `columns` that an update `u` writes, in that order;
      `writes` says which columns a table's `update` writes for `u`. */
  function Written<U, C>(writes: (U, C) -> bool, u: U, columns: seq<C>): seq<C>
    decreases |columns|
  {
    if columns == [] then []
    else (if writes(u, columns[0]) then [columns[0]] else []) + Written(writes, u, columns[1..])
  }

  /** The written columns of two column lists in a row are those of each in turn. */
  lemma {:induction false} WrittenAppend<U, C>(writes: (U, C) -> bool, u: U, xs: seq<C>, ys: seq<C>)
    ensures Written(writes, u, xs + ys) == Written(writes, u, xs) + Written(writes, u, ys)
    decreases |xs|
  {
    if xs == [] {
      assert xs + ys == ys;
    } else {
      var head := if writes(u, xs[0]) then [xs[0]] else [];
      var rest, tail := Written(writes, u, xs[1..]), Written(writes, u, ys);
      assert (xs + ys)[0] == xs[0];
      assert (xs + ys)[1..] == xs[1..] + ys;
      assert Written(writes, u, xs + ys) == head + Written(writes, u, xs[1..] + ys);
      WrittenAppend(writes, u, xs[1..], ys);
      assert head + (rest + tail) == (head + rest) + tail;
    }
  }

  /** Pushing one more assignment pushes its clause and its value. */
  lemma PushAssignment<C>(a: seq<Assignment<C>>, x: Assignment<C>, name: C -> string)
    ensures SetClauses(a + [x], name) == SetClauses(a, name) + [SetClause(x, name)]
    ensures Values(a + [x]) == Values(a) + [x.value]
  {
  }

  /** `fields.push("<column> = ?"); values.push(value)`, with the assignment
      the two pushes stand for appended to `a`. */
  method Push<C>(fields: seq<string>, values: seq<SqlValue>, a: seq<Assignment<C>>, x: Assignment<C>, name: C -> string)
    returns (fields': seq<string>, values': seq<SqlValue>, a': seq<Assignment<C>>)
    ensures fields' == fields + [name(x.column) + " = ?"] && values' == values + [x.value] && a' == a + [x]
    ensures fields == SetClauses(a, name) && values == Values(a) ==> fields' == SetClauses(a', name) && values' == Values(a')
  {
    PushAssignment(a, x, name);
    fields' := fields + [name(x.column) + " = ?"];
    values' := values + [x.value];
    a' := a + [x];
  }

  /** The statement issued for a non-empty `SET` list and a row id. */
  function Statement<C>(a: seq<Assignment<C>>, name: C -> string, id: int): UpdateStatement {
    UpdateStatement(SetClauses(a, name), Values(a) + [SqlInt(id)])
  }

  /** The `SET` list applied in order to one row, `apply` giving the effect of
      one assignment. */
  function ApplyAll<R, C>(row: R, a: seq<Assignment<C>>, apply: (R, Assignment<C>) -> R): R
    decreases |a|
  {
    if a == [] then row else ApplyAll(apply(row, a[0]), a[1..], apply)
  }

  lemma {:induction false} ApplyAllAppend<R, C>(row: R, a: seq<Assignment<C>>, b: seq<Assignment<C>>, apply: (R, Assignment<C>) -> R)
    ensures ApplyAll(row, a + b, apply) == ApplyAll(ApplyAll(row, a, apply), b, apply)
    decreases |a|
  {
    if a != [] {
      assert (a + b)[0] == a[0];
      assert (a + b)[1..] == a[1..] + b;
      ApplyAllAppend(apply(row, a[0]), a[1..], b, apply);
      assert ApplyAll(row, a + b, apply) == ApplyAll(apply(row, a[0]), a[1..] + b, apply);
      assert ApplyAll(row, a, apply) == ApplyAll(apply(row, a[0]), a[1..], apply);
    } else {
      assert a + b == b;
    }
  }

  /** The ids below `n` of the rows `keep` selects, in ascending order. */
  function SelectIds<R>(rows: map<int, R>, keep: R -> bool, n: nat): seq<int>
    decreases n
  {
    if n == 0 then []
    else SelectIds(rows, keep, n - 1) + (if n - 1 in rows && keep(rows[n - 1]) then [n - 1] else [])
  }

  /** Selection yields each selected id below `n` exactly once, in strictly
      ascending order, and nothing else. */
  lemma {:induction false} SelectIdsSpec<R>(rows: map<int, R>, keep: R -> bool, n: nat)
    ensures forall k :: k in SelectIds(rows, keep, n) <==> 0 <= k < n && k in rows && keep(rows[k])
    ensures forall i, j :: 0 <= i < j < |SelectIds(rows, keep, n)| ==> SelectIds(rows, keep, n)[i] < SelectIds(rows, keep, n)[j]
    decreases n
  {
    if n > 0 {
      SelectIdsSpec(rows, keep, n - 1);
      var prev := SelectIds(rows, keep, n - 1);
      var tail: seq<int> := if n - 1 in rows && keep(rows[n - 1]) then [n - 1] else [];
      assert SelectIds(rows, keep, n) == prev + tail;
      assert forall i :: 0 <= i < |prev| ==> prev[i] in prev && prev[i] < n - 1;
    }
  }

  /** The rows with the given ids, in that order. */
  function RowsAt<R>(rows: map<int, R>, ids: seq<int>): (r: seq<R>)
    requires forall i :: 0 <= i < |ids| ==> ids[i] in rows
    ensures |r| == |ids|
    ensures forall i :: 0 <= i < |ids| ==> r[i] == rows[ids[i]]
  {
    seq(|ids|, i requires 0 <= i < |ids| => rows[ids[i]])
  }

  /** Every selected id is a key of the table. */
  lemma SelectIdsInRows<R>(rows: map<int, R>, keep: R -> bool, n: nat)
    ensures forall i :: 0 <= i < |SelectIds(rows, keep, n)| ==> SelectIds(rows, keep, n)[i] in rows
  {
    SelectIdsSpec(rows, keep, n);
  }

  /** `SELECT ... WHERE <keep> ORDER BY id`: the selected rows in ascending id order. */
  function Select<R>(rows: map<int, R>, keep: R -> bool, n: nat): seq<R> {
    SelectIdsInRows(rows, keep, n);
    RowsAt(rows, SelectIds(rows, keep, n))
  }

  /** Every selected row is a row of the table that the filter keeps. */
  lemma SelectKeeps<R>(rows: map<int, R>, keep: R -> bool, n: nat)
    ensures forall i :: 0 <= i < |Select(rows, keep, n)| ==>
      keep(Select(rows, keep, n)[i]) && Select(rows, keep, n)[i] in rows.Values
  {
    SelectIdsSpec(rows, keep, n);
    var ids := SelectIds(rows, keep, n);
    assert forall i :: 0 <= i < |ids| ==> ids[i] in ids;
  }
}
