/**
 * Rows that are ordered within a parent: lessons within a module (`order_index`),
 * modules within a course (`order_index`), questions within a quiz
 * (`question_order`) and options within a question (`option_order`).
 *
 * The table operations are the SQL statements the models issue, each applied to
 * every row of the table in turn: `DELETE ... WHERE id = $1`,
 * `UPDATE ... SET order = order + d WHERE parent = $1 AND order BETWEEN ...` and
 * `UPDATE ... SET order = $2 WHERE id = $1`.
 */
module Ordering {
  import opened Wrappers

  /** A table row: primary key, parent key, position among its siblings and the other columns. */
  datatype Row<T> = Row(id: nat, parent: nat, order: int, data: T)

  /** The primary key is unique. */
  predicate UniqueIds<T>(rows: seq<Row<T>>)
  {
    forall i, j :: 0 <= i < j < |rows| ==> rows[i].id != rows[j].id
  }

  /** Number of rows under `parent`. */
  function Count<T>(rows: seq<Row<T>>, parent: nat): nat
  {
    if rows == [] then 0
    else (if rows[0].parent == parent then 1 else 0) + Count(rows[1..], parent)
  }

  /**
   * The positions under `parent` are exactly `base, base + 1, ..., base + Count - 1`,
   * each held by one row (lessons and modules count from 0, questions and options from 1).
   */
  predicate Contiguous<T>(rows: seq<Row<T>>, parent: nat, base: int)
  {
    && (forall i :: 0 <= i < |rows| && rows[i].parent == parent ==>
          base <= rows[i].order < base + Count(rows, parent))
    && (forall i, j :: (0 <= i < |rows| && 0 <= j < |rows| && i != j &&
          rows[i].parent == parent && rows[j].parent == parent) ==> rows[i].order != rows[j].order)
  }

  /** Index of the first row whose key is `id`: `SELECT * ... WHERE id = $1`. */
  function Find<T>(rows: seq<Row<T>>, id: nat): (r: Option<nat>)
    ensures r.None? ==> forall i :: 0 <= i < |rows| ==> rows[i].id != id
    ensures r.Some? ==> r.value < |rows| && rows[r.value].id == id &&
                        forall i :: 0 <= i < r.value ==> rows[i].id != id
  {
    if rows == [] then None
    else if rows[0].id == id then Some(0)
    else match Find(rows[1..], id)
      case None => None
      case Some(k) => Some(k + 1)
  }

  /** `SELECT MAX(order) ... WHERE parent = $1`: None when the parent has no rows. */
  function MaxOrder<T>(rows: seq<Row<T>>, parent: nat): (m: Option<int>)
    ensures m.None? <==> forall i :: 0 <= i < |rows| ==> rows[i].parent != parent
    ensures m.Some? ==> forall i :: 0 <= i < |rows| && rows[i].parent == parent ==> rows[i].order <= m.value
    ensures m.Some? ==> exists i :: 0 <= i < |rows| && rows[i].parent == parent && rows[i].order == m.value
  {
    if rows == [] then None
    else
      var rest := MaxOrder(rows[1..], parent);
      assert forall i :: 1 <= i < |rows| ==> rows[i] == rows[1..][i - 1];
      if rows[0].parent != parent then rest
      else if rest.None? || rest.value < rows[0].order then Some(rows[0].order)
      else rest
  }

  /** The position the table gives a row appended under `parent`: one past the maximum, or `base`. */
  function Appended<T>(rows: seq<Row<T>>, parent: nat, base: int): int
  {
    match MaxOrder(rows, parent)
    case None => base
    case Some(m) => m + 1
  }

  /** The change one `UPDATE ... SET order = order + delta WHERE parent = $1 AND lo <= order [AND order <= hi]` makes to a row. */
  function ShiftRow<T>(r: Row<T>, parent: nat, lo: int, hi: Option<int>, delta: int): Row<T>
  {
    if r.parent == parent && lo <= r.order && (hi.None? || r.order <= hi.value)
    then r.(order := r.order + delta)
    else r
  }

  /** The whole table after that `UPDATE`. */
  function Shifted<T>(rows: seq<Row<T>>, parent: nat, lo: int, hi: Option<int>, delta: int): seq<Row<T>>
  {
    seq(|rows|, i requires 0 <= i < |rows| => ShiftRow(rows[i], parent, lo, hi, delta))
  }

  /** The table after `UPDATE ... SET order = $2 WHERE id = $1`. */
  function Placed<T>(rows: seq<Row<T>>, id: nat, to: int): seq<Row<T>>
  {
    seq(|rows|, i requires 0 <= i < |rows| => if rows[i].id == id then rows[i].(order := to) else rows[i])
  }

  /** The table after `DELETE ... WHERE id = $1`. */
  function Without<T>(rows: seq<Row<T>>, id: nat): seq<Row<T>>
  {
    if rows == [] then []
    else Without(rows[..|rows| - 1], id) + (if rows[|rows| - 1].id == id then [] else [rows[|rows| - 1]])
  }

  /**
   * Delete with compaction: the row is deleted, then every later sibling moves up
   * one place (`order > deleted order` becomes `order - 1`). An unknown key changes nothing.
   */
  function Deleted<T>(rows: seq<Row<T>>, id: nat): seq<Row<T>>
  {
    match Find(rows, id)
    case None => rows
    case Some(t) => Shifted(Without(rows, id), rows[t].parent, rows[t].order + 1, None, -1)
  }

  /** Where a sibling at `x` ends up when the row at `from` moves to `to`. */
  function Moved(x: int, from: int, to: int): int
  {
    if from < to && from < x <= to then x - 1
    else if to < from && to <= x < from then x + 1
    else x
  }

  /**
   * Move with shift: moving down (to > from) pulls the siblings in (from, to] up one
   * place, moving up pushes the siblings in [to, from) down one place, and then the
   * row itself is placed at `to`. An unchanged position or an unknown key changes nothing.
   */
  function Reordered<T>(rows: seq<Row<T>>, id: nat, to: int): seq<Row<T>>
  {
    match Find(rows, id)
    case None => rows
    case Some(t) =>
      var from, parent := rows[t].order, rows[t].parent;
      if from == to then rows
      else if to > from then Placed(Shifted(rows, parent, from + 1, Some(to), -1), id, to)
      else Placed(Shifted(rows, parent, to, Some(from - 1), 1), id, to)
  }

  // ---------------------------------------------------------------------------
  // The statements, executed row by row.

  /** `UPDATE ... SET order = order + delta WHERE parent = $1 AND lo <= order [AND order <= hi]`. */
  method ShiftRange<T>(rows: seq<Row<T>>, parent: nat, lo: int, hi: Option<int>, delta: int)
    returns (out: seq<Row<T>>)
    ensures out == Shifted(rows, parent, lo, hi, delta)
  {
    out := rows;
    var i := 0;
    while i < |out|
      invariant 0 <= i <= |out| == |rows|
      invariant forall k :: 0 <= k < i ==> out[k] == ShiftRow(rows[k], parent, lo, hi, delta)
      invariant forall k :: i <= k < |out| ==> out[k] == rows[k]
    {
      if out[i].parent == parent && lo <= out[i].order && (hi.None? || out[i].order <= hi.value) {
        out := out[i := out[i].(order := out[i].order + delta)];
      }
      i := i + 1;
    }
  }

  /** `UPDATE ... SET order = $2 WHERE id = $1`. */
  method Place<T>(rows: seq<Row<T>>, id: nat, to: int) returns (out: seq<Row<T>>)
    ensures out == Placed(rows, id, to)
  {
    out := rows;
    var i := 0;
    while i < |out|
      invariant 0 <= i <= |out| == |rows|
      invariant forall k :: 0 <= k < i ==> out[k] == if rows[k].id == id then rows[k].(order := to) else rows[k]
      invariant forall k :: i <= k < |out| ==> out[k] == rows[k]
    {
      if out[i].id == id {
        out := out[i := out[i].(order := to)];
      }
      i := i + 1;
    }
  }

  /** `DELETE ... WHERE id = $1`. */
  method Remove<T>(rows: seq<Row<T>>, id: nat) returns (out: seq<Row<T>>)
    ensures out == Without(rows, id)
  {
    out := [];
    var i := 0;
    while i < |rows|
      invariant 0 <= i <= |rows|
      invariant out == Without(rows[..i], id)
    {
      assert rows[..i + 1][..i] == rows[..i];
      if rows[i].id != id {
        out := out + [rows[i]];
      }
      i := i + 1;
    }
    assert rows[..|rows|] == rows;
  }

  // ---------------------------------------------------------------------------
  // Properties.

  lemma {:induction false} CountConcat<T>(a: seq<Row<T>>, b: seq<Row<T>>, parent: nat)
    ensures Count(a + b, parent) == Count(a, parent) + Count(b, parent)
  {
    if a == [] {
      assert a + b == b;
    } else {
      assert (a + b)[0] == a[0];
      assert (a + b)[1..] == a[1..] + b;
      CountConcat(a[1..], b, parent);
    }
  }

  /** Two tables with the same parents row for row have the same number of rows under each parent. */
  lemma {:induction false} CountSameParents<T>(a: seq<Row<T>>, b: seq<Row<T>>, parent: nat)
    requires |a| == |b| && forall i :: 0 <= i < |a| ==> a[i].parent == b[i].parent
    ensures Count(a, parent) == Count(b, parent)
  {
    if a != [] {
      CountSameParents(a[1..], b[1..], parent);
    }
  }

  /** Deleting a key that no row has changes nothing. */
  lemma {:induction false} WithoutAbsent<T>(rows: seq<Row<T>>, id: nat)
    requires forall i :: 0 <= i < |rows| ==> rows[i].id != id
    ensures Without(rows, id) == rows
  {
    if rows != [] {
      var n := |rows| - 1;
      WithoutAbsent(rows[..n], id);
      assert rows[..n] + [rows[n]] == rows;
    }
  }

  /** Under a unique key, deleting by key removes exactly the row holding it. */
  lemma {:induction false} WithoutUnique<T>(rows: seq<Row<T>>, id: nat, t: nat)
    requires UniqueIds(rows) && t < |rows| && rows[t].id == id
    ensures Without(rows, id) == rows[..t] + rows[t + 1..]
  {
    var n := |rows| - 1;
    var init := rows[..n];
    if t == n {
      WithoutAbsent(init, id);
    } else {
      WithoutUnique(init, id, t);
      assert rows[n].id != id;
      assert init[..t] + init[t + 1..] + [rows[n]] == rows[..t] + rows[t + 1..];
    }
  }

  /** The first row with key `id` is at `t`. */
  lemma FindIs<T>(rows: seq<Row<T>>, id: nat, t: nat)
    requires t < |rows| && rows[t].id == id && forall i :: 0 <= i < t ==> rows[i].id != id
    ensures Find(rows, id) == Some(t)
  {
    var f := Find(rows, id);
    assert f.Some?;
    assert !(f.value < t);
    assert !(f.value > t);
  }

  /** A row found before position `n` is also the first such row of the prefix of length `n`. */
  lemma FindPrefix<T>(rows: seq<Row<T>>, n: nat, id: nat)
    requires n <= |rows| && Find(rows, id).Some? && Find(rows, id).value < n
    ensures Find(rows[..n], id) == Find(rows, id)
  {
    var t := Find(rows, id).value;
    forall i | 0 <= i < t ensures rows[..n][i].id != id {
      assert rows[..n][i] == rows[i];
    }
    assert rows[..n][t] == rows[t];
    FindIs(rows[..n], id, t);
  }

  /** Appending at one past the maximum (or at `base` under an empty parent) keeps the positions contiguous. */
  lemma AppendKeepsContiguous<T>(rows: seq<Row<T>>, row: Row<T>, base: int)
    requires Contiguous(rows, row.parent, base)
    requires row.order == Appended(rows, row.parent, base)
    ensures Contiguous(rows + [row], row.parent, base)
    ensures Count(rows + [row], row.parent) == Count(rows, row.parent) + 1
  {
    var p := row.parent;
    var r := rows + [row];
    CountConcat(rows, [row], p);
    assert Count([row], p) == 1 by {
      assert [row][1..] == [];
    }
    match MaxOrder(rows, p)
    case None =>
    case Some(m) =>
      var w :| 0 <= w < |rows| && rows[w].parent == p && rows[w].order == m;
      assert base <= m;
    assert forall i :: 0 <= i < |rows| ==> r[i] == rows[i];
  }

  /** Moving a row keeps every other position in the range and off the target position. */
  lemma MovedInRange(x: int, from: int, to: int, base: int, c: int)
    requires x != from && base <= x < base + c && base <= from < base + c && base <= to < base + c
    ensures base <= Moved(x, from, to) < base + c && Moved(x, from, to) != to
  {
  }

  /** Moving a row keeps the relative order of the other rows. */
  lemma MovedMonotone(x: int, y: int, from: int, to: int)
    requires x != from && y != from
    ensures x < y <==> Moved(x, from, to) < Moved(y, from, to)
  {
  }

  /** The row-level effect of a reorder, as a function of each row's old position. */
  lemma ReorderedAt<T>(rows: seq<Row<T>>, id: nat, to: int, i: nat)
    requires UniqueIds(rows) && Find(rows, id).Some? && i < |rows|
    ensures |Reordered(rows, id, to)| == |rows|
    ensures var t := Find(rows, id).value;
      var r := Reordered(rows, id, to)[i];
      && r.id == rows[i].id && r.parent == rows[i].parent && r.data == rows[i].data
      && r.order == (if i == t then to
                     else if rows[i].parent == rows[t].parent then Moved(rows[i].order, rows[t].order, to)
                     else rows[i].order)
  {
    var t := Find(rows, id).value;
    var from := rows[t].order;
    assert i != t ==> rows[i].id != id;
    if to > from {
      ReorderedDownAt(rows, id, to, i);
    } else if to < from {
      ReorderedUpAt(rows, id, to, i);
    }
  }

  /** A reorder that moves the row down: its shift and placement, seen at one row. */
  lemma ReorderedDownAt<T>(rows: seq<Row<T>>, id: nat, to: int, i: nat)
    requires Find(rows, id).Some? && i < |rows| && (i != Find(rows, id).value ==> rows[i].id != id)
    requires to > rows[Find(rows, id).value].order
    ensures |Reordered(rows, id, to)| == |rows|
    ensures var t := Find(rows, id).value;
      var r := Reordered(rows, id, to)[i];
      && r.id == rows[i].id && r.parent == rows[i].parent && r.data == rows[i].data
      && r.order == (if i == t then to
                     else if rows[i].parent == rows[t].parent then Moved(rows[i].order, rows[t].order, to)
                     else rows[i].order)
  {
    var t := Find(rows, id).value;
    var from := rows[t].order;
    var q := Placed(Shifted(rows, rows[t].parent, from + 1, Some(to), -1), id, to);
    ShiftedPlacedAt(rows, rows[t].parent, from + 1, Some(to), -1, id, to, i);
    assert |Reordered(rows, id, to)| == |q| && Reordered(rows, id, to)[i] == q[i];
  }

  /** A reorder that moves the row up: its shift and placement, seen at one row. */
  lemma ReorderedUpAt<T>(rows: seq<Row<T>>, id: nat, to: int, i: nat)
    requires Find(rows, id).Some? && i < |rows| && (i != Find(rows, id).value ==> rows[i].id != id)
    requires to < rows[Find(rows, id).value].order
    ensures |Reordered(rows, id, to)| == |rows|
    ensures var t := Find(rows, id).value;
      var r := Reordered(rows, id, to)[i];
      && r.id == rows[i].id && r.parent == rows[i].parent && r.data == rows[i].data
      && r.order == (if i == t then to
                     else if rows[i].parent == rows[t].parent then Moved(rows[i].order, rows[t].order, to)
                     else rows[i].order)
  {
    var t := Find(rows, id).value;
    var from := rows[t].order;
    var q := Placed(Shifted(rows, rows[t].parent, to, Some(from - 1), 1), id, to);
    ShiftedPlacedAt(rows, rows[t].parent, to, Some(from - 1), 1, id, to, i);
    assert |Reordered(rows, id, to)| == |q| && Reordered(rows, id, to)[i] == q[i];
  }

  /** One row of the table after a shift and then a placement. */
  lemma ShiftedPlacedAt<T>(rows: seq<Row<T>>, parent: nat, lo: int, hi: Option<int>, delta: int, id: nat, to: int, i: nat)
    requires i < |rows|
    ensures |Placed(Shifted(rows, parent, lo, hi, delta), id, to)| == |rows|
    ensures Placed(Shifted(rows, parent, lo, hi, delta), id, to)[i] ==
      if rows[i].id == id then ShiftRow(rows[i], parent, lo, hi, delta).(order := to)
      else ShiftRow(rows[i], parent, lo, hi, delta)
  {
  }

  /**
   * Reordering to a position inside the range keeps the positions under the parent
   * contiguous, leaves other parents' rows untouched, and keeps the relative order
   * of every other sibling.
   */
  lemma ReorderKeepsContiguous<T>(rows: seq<Row<T>>, id: nat, to: int, base: int)
    requires UniqueIds(rows) && Find(rows, id).Some?
    requires Contiguous(rows, rows[Find(rows, id).value].parent, base)
    requires base <= to < base + Count(rows, rows[Find(rows, id).value].parent)
    ensures var t := Find(rows, id).value; var p := rows[t].parent; var r := Reordered(rows, id, to);
      && |r| == |rows|
      && Contiguous(r, p, base)
      && r[t].order == to
      && (forall i :: 0 <= i < |rows| && rows[i].parent != p ==> r[i] == rows[i])
      && (forall i, j :: (0 <= i < |rows| && 0 <= j < |rows| && i != t && j != t &&
            rows[i].parent == p && rows[j].parent == p) ==>
            (rows[i].order < rows[j].order <==> r[i].order < r[j].order))
  {
    var t := Find(rows, id).value;
    var p, from := rows[t].parent, rows[t].order;
    var c := Count(rows, p);
    var r := Reordered(rows, id, to);
    assert |r| == |rows| by { ReorderedAt(rows, id, to, t); }
    forall i | 0 <= i < |rows|
      ensures r[i].parent == rows[i].parent && r[i].id == rows[i].id && r[i].data == rows[i].data
      ensures r[i].order == (if i == t then to else if rows[i].parent == p then Moved(rows[i].order, from, to) else rows[i].order)
    {
      ReorderedAt(rows, id, to, i);
    }
    CountSameParents(rows, r, p);
    assert Count(r, p) == c;
    forall i | 0 <= i < |rows| && i != t && rows[i].parent == p
      ensures base <= r[i].order < base + c && r[i].order != to
    {
      MovedInRange(rows[i].order, from, to, base, c);
    }
    forall i, j | 0 <= i < |rows| && 0 <= j < |rows| && i != t && j != t && rows[i].parent == p && rows[j].parent == p
      ensures rows[i].order < rows[j].order <==> r[i].order < r[j].order
    {
      MovedMonotone(rows[i].order, rows[j].order, from, to);
      MovedMonotone(rows[j].order, rows[i].order, from, to);
    }
  }

  /** Row `i` of a table with row `t` deleted came from row `Skip(i, t)`. */
  function Skip(i: nat, t: nat): nat
  {
    if i < t then i else i + 1
  }

  /** `r` is `rows` with row `t` deleted and the later siblings of that row moved up one place. */
  ghost predicate CompactedFrom<T>(rows: seq<Row<T>>, r: seq<Row<T>>, t: nat)
  {
    && t < |rows| && |r| == |rows| - 1
    && forall i :: 0 <= i < |r| ==>
         r[i] == ShiftRow(rows[Skip(i, t)], rows[t].parent, rows[t].order + 1, None, -1)
  }

  /** The row-level effect of a delete. */
  lemma DeletedAt<T>(rows: seq<Row<T>>, id: nat)
    requires UniqueIds(rows) && Find(rows, id).Some?
    ensures CompactedFrom(rows, Deleted(rows, id), Find(rows, id).value)
  {
    var t := Find(rows, id).value;
    var p, o := rows[t].parent, rows[t].order;
    var w := Without(rows, id);
    WithoutUnique(rows, id, t);
    assert w == rows[..t] + rows[t + 1..];
    var r := Deleted(rows, id);
    assert r == Shifted(w, p, o + 1, None, -1);
    forall i | 0 <= i < |r|
      ensures r[i] == ShiftRow(rows[Skip(i, t)], p, o + 1, None, -1)
    {
      assert w[i] == rows[Skip(i, t)];
    }
  }

  /** Compaction leaves one sibling fewer under the parent of the deleted row. */
  lemma CompactedCount<T>(rows: seq<Row<T>>, r: seq<Row<T>>, t: nat)
    requires CompactedFrom(rows, r, t)
    ensures Count(r, rows[t].parent) == Count(rows, rows[t].parent) - 1
  {
    var p := rows[t].parent;
    var w := rows[..t] + rows[t + 1..];
    assert forall i :: 0 <= i < |w| ==> w[i] == rows[Skip(i, t)];
    assert forall i :: 0 <= i < |w| ==> r[i].parent == w[i].parent;
    assert rows == rows[..t] + [rows[t]] + rows[t + 1..];
    CountConcat(rows[..t] + [rows[t]], rows[t + 1..], p);
    CountConcat(rows[..t], [rows[t]], p);
    CountConcat(rows[..t], rows[t + 1..], p);
    assert Count([rows[t]], p) == 1 by { assert [rows[t]][1..] == []; }
    CountSameParents(w, r, p);
  }

  /** Compaction keeps the siblings of the deleted row contiguous. */
  lemma CompactedContiguous<T>(rows: seq<Row<T>>, r: seq<Row<T>>, t: nat, base: int)
    requires CompactedFrom(rows, r, t) && Contiguous(rows, rows[t].parent, base)
    ensures Contiguous(r, rows[t].parent, base)
  {
    var p, o := rows[t].parent, rows[t].order;
    var c := Count(rows, p);
    CompactedCount(rows, r, t);
    forall i | 0 <= i < |r| && r[i].parent == p
      ensures base <= r[i].order < base + c - 1
    {
      var k := Skip(i, t);
      assert k != t && rows[k].parent == p;
      assert rows[k].order != o;
    }
    forall i, j | 0 <= i < |r| && 0 <= j < |r| && i != j && r[i].parent == p && r[j].parent == p
      ensures r[i].order != r[j].order
    {
      var ki, kj := Skip(i, t), Skip(j, t);
      assert ki != kj && ki != t && kj != t;
      assert rows[ki].order != o && rows[kj].order != o;
    }
  }

  /**
   * Deleting a row keeps its former siblings contiguous (one fewer of them), removes
   * exactly that row, and leaves other parents' rows untouched.
   */
  lemma DeleteKeepsContiguous<T>(rows: seq<Row<T>>, id: nat, base: int)
    requires UniqueIds(rows) && Find(rows, id).Some?
    requires Contiguous(rows, rows[Find(rows, id).value].parent, base)
    ensures var t := Find(rows, id).value; var p := rows[t].parent; var r := Deleted(rows, id);
      && |r| == |rows| - 1
      && Count(r, p) == Count(rows, p) - 1
      && Contiguous(r, p, base)
      && (forall i :: 0 <= i < |r| ==> r[i].id == rows[Skip(i, t)].id && r[i].id != id)
      && (forall i :: 0 <= i < |r| && r[i].parent != p ==> r[i] == rows[Skip(i, t)])
  {
    var t := Find(rows, id).value;
    var r := Deleted(rows, id);
    DeletedAt(rows, id);
    CompactedCount(rows, r, t);
    CompactedContiguous(rows, r, t, base);
    forall i | 0 <= i < |r|
      ensures r[i].id == rows[Skip(i, t)].id && r[i].id != id
    {
      assert Skip(i, t) != t;
    }
  }

  /** Deleting a row keeps the relative order of its remaining siblings. */
  lemma DeleteKeepsRelativeOrder<T>(rows: seq<Row<T>>, id: nat, i: nat, j: nat)
    requires UniqueIds(rows) && Find(rows, id).Some?
    requires Contiguous(rows, rows[Find(rows, id).value].parent, 0) || Contiguous(rows, rows[Find(rows, id).value].parent, 1)
    requires i < |rows| - 1 && j < |rows| - 1
    ensures var t := Find(rows, id).value; var r := Deleted(rows, id);
      |r| == |rows| - 1 &&
      (r[i].parent == rows[t].parent && r[j].parent == rows[t].parent ==>
        (r[i].order < r[j].order <==> rows[Skip(i, t)].order < rows[Skip(j, t)].order))
  {
    var t := Find(rows, id).value;
    DeletedAt(rows, id);
    assert Skip(i, t) != t && Skip(j, t) != t;
  }

  /** The quiz tables' rule `max ? max + 1 : 1`: a maximum of 0 is falsy but 0 + 1 is 1 anyway. */
  function NextPosition<T>(rows: seq<Row<T>>, parent: nat): (n: int)
    ensures n == Appended(rows, parent, 1)
  {
    var m := MaxOrder(rows, parent);
    if m.None? || m.value == 0 then 1 else m.value + 1
  }

  /** The lesson and module tables' rule `COALESCE(MAX(order_index), -1) + 1`. */
  function NextIndex<T>(rows: seq<Row<T>>, parent: nat): (n: int)
    ensures n == Appended(rows, parent, 0)
  {
    MaxOrder(rows, parent).GetOr(-1) + 1
  }

  /** Delete with compaction as two statements: the `DELETE`, then the shift of the later siblings. */
  method DeleteAndCompact<T>(rows: seq<Row<T>>, id: nat) returns (out: seq<Row<T>>)
    ensures out == Deleted(rows, id)
  {
    match Find(rows, id)
    case None =>
      out := rows;
    case Some(t) =>
      var w := Remove(rows, id);
      out := ShiftRange(w, rows[t].parent, rows[t].order + 1, None, -1);
  }

  /** Move with shift as two statements: the shift of the siblings in range, then the move itself. */
  method MoveAndShift<T>(rows: seq<Row<T>>, id: nat, to: int) returns (out: seq<Row<T>>)
    ensures out == Reordered(rows, id, to)
  {
    match Find(rows, id)
    case None =>
      out := rows;
    case Some(t) =>
      var from, parent := rows[t].order, rows[t].parent;
      if from == to {
        out := rows;
      } else if to > from {
        var w := ShiftRange(rows, parent, from + 1, Some(to), -1);
        out := Place(w, id, to);
      } else {
        var w := ShiftRange(rows, parent, to, Some(from - 1), 1);
        out := Place(w, id, to);
      }
  }

  // ---------------------------------------------------------------------------
  // Every parent at once.

  /** Every parent's rows hold contiguous positions from `base`. */
  ghost predicate AllContiguous<T>(rows: seq<Row<T>>, base: int)
  {
    forall p: nat :: Contiguous(rows, p, base)
  }

  /** Changing only the other columns of rows keeps every parent's positions as they were. */
  lemma SameShapeKeepsContiguous<T>(a: seq<Row<T>>, b: seq<Row<T>>, base: int)
    requires |a| == |b|
    requires forall i :: 0 <= i < |a| ==> a[i].parent == b[i].parent && a[i].order == b[i].order
    requires AllContiguous(a, base)
    ensures AllContiguous(b, base)
  {
    forall p: nat
      ensures Contiguous(b, p, base)
    {
      CountSameParents(a, b, p);
      assert Contiguous(a, p, base);
    }
  }

  /** Appending at one past its parent's maximum keeps every parent contiguous. */
  lemma AppendKeepsAllContiguous<T>(rows: seq<Row<T>>, row: Row<T>, base: int)
    requires AllContiguous(rows, base)
    requires row.order == Appended(rows, row.parent, base)
    ensures AllContiguous(rows + [row], base)
  {
    var r := rows + [row];
    forall p: nat
      ensures Contiguous(r, p, base)
    {
      assert Contiguous(rows, p, base);
      if p == row.parent {
        AppendKeepsContiguous(rows, row, base);
      } else {
        CountConcat(rows, [row], p);
        assert Count([row], p) == 0 by { assert [row][1..] == []; }
        assert forall i :: 0 <= i < |rows| ==> r[i] == rows[i];
      }
    }
  }

  /** Deleting with compaction keeps every parent contiguous. */
  lemma DeleteKeepsAllContiguous<T>(rows: seq<Row<T>>, id: nat, base: int)
    requires UniqueIds(rows) && AllContiguous(rows, base)
    ensures AllContiguous(Deleted(rows, id), base)
  {
    match Find(rows, id)
    case None =>
    case Some(t) =>
      var r := Deleted(rows, id);
      DeletedAt(rows, id);
      forall p: nat
        ensures Contiguous(r, p, base)
      {
        assert Contiguous(rows, p, base);
        if p == rows[t].parent {
          CompactedContiguous(rows, r, t, base);
        } else {
          CompactedOtherParent(rows, r, t, p, base);
        }
      }
  }

  /** Compaction under one parent leaves another parent's rows and count as they were. */
  lemma CompactedOtherParent<T>(rows: seq<Row<T>>, r: seq<Row<T>>, t: nat, p: nat, base: int)
    requires CompactedFrom(rows, r, t) && p != rows[t].parent && Contiguous(rows, p, base)
    ensures Contiguous(r, p, base)
  {
    var w := rows[..t] + rows[t + 1..];
    assert forall i :: 0 <= i < |w| ==> w[i] == rows[Skip(i, t)];
    assert forall i :: 0 <= i < |w| ==> r[i].parent == w[i].parent;
    assert rows == rows[..t] + [rows[t]] + rows[t + 1..];
    CountConcat(rows[..t] + [rows[t]], rows[t + 1..], p);
    CountConcat(rows[..t], [rows[t]], p);
    CountConcat(rows[..t], rows[t + 1..], p);
    assert Count([rows[t]], p) == 0 by { assert [rows[t]][1..] == []; }
    CountSameParents(w, r, p);
    forall i | 0 <= i < |r| && r[i].parent == p
      ensures r[i] == rows[Skip(i, t)]
    {
    }
    forall i, j | 0 <= i < |r| && 0 <= j < |r| && i != j && r[i].parent == p && r[j].parent == p
      ensures r[i].order != r[j].order
    {
      assert Skip(i, t) != Skip(j, t);
    }
  }

  /** The table after `DELETE ... WHERE parent = $1`. */
  function WithoutParent<T>(rows: seq<Row<T>>, parent: nat): seq<Row<T>>
  {
    if rows == [] then []
    else WithoutParent(rows[..|rows| - 1], parent) +
         (if rows[|rows| - 1].parent == parent then [] else [rows[|rows| - 1]])
  }

  /** `DELETE ... WHERE parent = $1`. */
  method RemoveChildren<T>(rows: seq<Row<T>>, parent: nat) returns (out: seq<Row<T>>)
    ensures out == WithoutParent(rows, parent)
  {
    out := [];
    var i := 0;
    while i < |rows|
      invariant 0 <= i <= |rows|
      invariant out == WithoutParent(rows[..i], parent)
    {
      assert rows[..i + 1][..i] == rows[..i];
      if rows[i].parent != parent {
        out := out + [rows[i]];
      }
      i := i + 1;
    }
    assert rows[..|rows|] == rows;
  }

  /**
   * Deleting every row of one parent removes exactly those rows: what is left is the
   * other rows, in their order.
   */
  lemma {:induction false} WithoutParentRows<T>(rows: seq<Row<T>>, parent: nat)
    ensures forall i :: 0 <= i < |WithoutParent(rows, parent)| ==> WithoutParent(rows, parent)[i].parent != parent
    ensures forall q: nat :: q != parent ==> Count(WithoutParent(rows, parent), q) == Count(rows, q)
    ensures |WithoutParent(rows, parent)| == |rows| - Count(rows, parent)
  {
    if rows != [] {
      var n := |rows| - 1;
      var init := rows[..n];
      WithoutParentRows(init, parent);
      assert init + [rows[n]] == rows;
      var w := WithoutParent(init, parent);
      forall q: nat
        ensures Count(rows, q) == Count(init, q) + (if rows[n].parent == q then 1 else 0)
        ensures Count(WithoutParent(rows, parent), q) == Count(w, q) + (if rows[n].parent == q && q != parent then 1 else 0)
      {
        CountConcat(init, [rows[n]], q);
        assert [rows[n]][1..] == [];
        CountConcat(w, [rows[n]], q);
        assert WithoutParent(rows, parent) == w + (if rows[n].parent == parent then [] else [rows[n]]);
        assert w + [] == w;
      }
    }
  }

  /** What survives deleting a parent's rows: exactly the rows of the other parents. */
  lemma {:induction false} WithoutParentMembers<T>(rows: seq<Row<T>>, parent: nat)
    ensures forall r :: r in WithoutParent(rows, parent) <==> r in rows && r.parent != parent
  {
    if rows != [] {
      var n := |rows| - 1;
      WithoutParentMembers(rows[..n], parent);
      assert rows == rows[..n] + [rows[n]];
    }
  }

  /** Row `i` of the result of deleting a parent's rows is some row of the table. */
  lemma {:induction false} WithoutParentFrom<T>(rows: seq<Row<T>>, parent: nat, i: nat)
    requires i < |WithoutParent(rows, parent)|
    ensures exists k :: 0 <= k < |rows| && WithoutParent(rows, parent)[i] == rows[k]
  {
    var n := |rows| - 1;
    var w := WithoutParent(rows[..n], parent);
    if i < |w| {
      WithoutParentFrom(rows[..n], parent, i);
      var k :| 0 <= k < n && w[i] == rows[..n][k];
      assert WithoutParent(rows, parent)[i] == rows[k];
    } else {
      assert WithoutParent(rows, parent)[i] == rows[n];
    }
  }

  /** Rows `i < j` of the result of deleting a parent's rows come from rows `ki < kj` of the table. */
  lemma {:induction false} WithoutParentIndices<T>(rows: seq<Row<T>>, parent: nat, i: nat, j: nat)
    requires i < j < |WithoutParent(rows, parent)|
    ensures exists ki, kj :: (0 <= ki < kj < |rows| &&
      WithoutParent(rows, parent)[i] == rows[ki] && WithoutParent(rows, parent)[j] == rows[kj])
  {
    var n := |rows| - 1;
    var w := WithoutParent(rows[..n], parent);
    if j < |w| {
      WithoutParentIndices(rows[..n], parent, i, j);
      var ki, kj :| 0 <= ki < kj < n && w[i] == rows[..n][ki] && w[j] == rows[..n][kj];
      assert WithoutParent(rows, parent)[i] == rows[ki] && WithoutParent(rows, parent)[j] == rows[kj];
    } else {
      WithoutParentFrom(rows[..n], parent, i);
      var ki :| 0 <= ki < n && w[i] == rows[..n][ki];
      assert WithoutParent(rows, parent)[i] == rows[ki] && WithoutParent(rows, parent)[j] == rows[n];
    }
  }

  /** Deleting every row of one parent keeps the keys unique and every parent contiguous. */
  lemma WithoutParentKeepsAllContiguous<T>(rows: seq<Row<T>>, parent: nat, base: int)
    requires UniqueIds(rows) && AllContiguous(rows, base)
    ensures UniqueIds(WithoutParent(rows, parent)) && AllContiguous(WithoutParent(rows, parent), base)
  {
    var w := WithoutParent(rows, parent);
    WithoutParentRows(rows, parent);
    forall i, j | 0 <= i < j < |w|
      ensures w[i].id != w[j].id
    {
      WithoutParentIndices(rows, parent, i, j);
    }
    forall p: nat
      ensures Contiguous(w, p, base)
    {
      assert Contiguous(rows, p, base);
      if p != parent {
        forall i | 0 <= i < |w| && w[i].parent == p
          ensures base <= w[i].order < base + Count(w, p)
        {
          WithoutParentFrom(rows, parent, i);
        }
        forall i, j | 0 <= i < |w| && 0 <= j < |w| && i != j && w[i].parent == p && w[j].parent == p
          ensures w[i].order != w[j].order
        {
          if i < j { WithoutParentIndices(rows, parent, i, j); } else { WithoutParentIndices(rows, parent, j, i); }
        }
      }
    }
  }

  /** Deleting a row by key keeps the keys unique. */
  lemma WithoutKeepsUnique<T>(rows: seq<Row<T>>, id: nat)
    requires UniqueIds(rows)
    ensures UniqueIds(Deleted(rows, id))
  {
    match Find(rows, id)
    case None =>
    case Some(t) =>
      DeletedAt(rows, id);
      var r := Deleted(rows, id);
      forall i, j | 0 <= i < j < |r|
        ensures r[i].id != r[j].id
      {
        assert Skip(i, t) < Skip(j, t);
      }
  }

  // ---------------------------------------------------------------------------
  // Reading a parent's rows in order: `SELECT ... WHERE parent = $1 ORDER BY order`.

  predicate SortedByOrder<T>(rows: seq<Row<T>>)
  {
    forall i, j :: 0 <= i < j < |rows| ==> rows[i].order <= rows[j].order
  }

  /** Rows under `parent`, in table order. */
  function Children<T>(rows: seq<Row<T>>, parent: nat): (r: seq<Row<T>>)
    ensures forall i :: 0 <= i < |r| ==> r[i].parent == parent
  {
    if rows == [] then []
    else Children(rows[..|rows| - 1], parent) +
         (if rows[|rows| - 1].parent == parent then [rows[|rows| - 1]] else [])
  }

  function InsertByOrder<T>(row: Row<T>, sorted: seq<Row<T>>): (r: seq<Row<T>>)
    ensures |r| == |sorted| + 1
  {
    if sorted == [] || row.order <= sorted[0].order then [row] + sorted
    else [sorted[0]] + InsertByOrder(row, sorted[1..])
  }

  function SortByOrder<T>(rows: seq<Row<T>>): (r: seq<Row<T>>)
    ensures |r| == |rows|
  {
    if rows == [] then [] else InsertByOrder(rows[0], SortByOrder(rows[1..]))
  }

  /** A parent's rows sorted by position. */
  function ChildrenInOrder<T>(rows: seq<Row<T>>, parent: nat): seq<Row<T>>
  {
    SortByOrder(Children(rows, parent))
  }

  lemma {:induction false} InsertByOrderBound<T>(row: Row<T>, sorted: seq<Row<T>>, lo: int)
    requires lo <= row.order && forall k :: 0 <= k < |sorted| ==> lo <= sorted[k].order
    ensures forall k :: 0 <= k < |InsertByOrder(row, sorted)| ==> lo <= InsertByOrder(row, sorted)[k].order
  {
    if !(sorted == [] || row.order <= sorted[0].order) {
      InsertByOrderBound(row, sorted[1..], lo);
    }
  }

  /** A row no later than any of a sorted list's rows can go in front of it. */
  lemma SortedCons<T>(x: Row<T>, t: seq<Row<T>>)
    requires SortedByOrder(t) && forall k :: 0 <= k < |t| ==> x.order <= t[k].order
    ensures SortedByOrder([x] + t)
  {
    var r := [x] + t;
    forall i, j | 0 <= i < j < |r| ensures r[i].order <= r[j].order {
      assert r[j] == t[j - 1];
      if i > 0 {
        assert r[i] == t[i - 1];
      }
    }
  }

  lemma {:induction false} InsertByOrderKeepsSorted<T>(row: Row<T>, sorted: seq<Row<T>>)
    requires SortedByOrder(sorted)
    ensures SortedByOrder(InsertByOrder(row, sorted))
  {
    if sorted == [] {
    } else if row.order <= sorted[0].order {
      SortedCons(row, sorted);
    } else {
      var rest := sorted[1..];
      InsertByOrderKeepsSorted(row, rest);
      InsertByOrderBound(row, rest, sorted[0].order);
      SortedCons(sorted[0], InsertByOrder(row, rest));
    }
  }

  lemma {:induction false} InsertByOrderPerm<T>(row: Row<T>, sorted: seq<Row<T>>)
    ensures multiset(InsertByOrder(row, sorted)) == multiset([row]) + multiset(sorted)
  {
    if !(sorted == [] || row.order <= sorted[0].order) {
      var rest := sorted[1..];
      InsertByOrderPerm(row, rest);
      assert sorted == [sorted[0]] + rest;
    }
  }

  lemma InsertByOrderSorted<T>(row: Row<T>, sorted: seq<Row<T>>)
    requires SortedByOrder(sorted)
    ensures SortedByOrder(InsertByOrder(row, sorted))
    ensures multiset(InsertByOrder(row, sorted)) == multiset([row]) + multiset(sorted)
  {
    InsertByOrderKeepsSorted(row, sorted);
    InsertByOrderPerm(row, sorted);
  }

  /** Sorting by position yields the same rows, ordered by position. */
  lemma {:induction false} SortByOrderSorted<T>(rows: seq<Row<T>>)
    ensures SortedByOrder(SortByOrder(rows))
    ensures multiset(SortByOrder(rows)) == multiset(rows)
  {
    if rows != [] {
      SortByOrderSorted(rows[1..]);
      InsertByOrderSorted(rows[0], SortByOrder(rows[1..]));
      assert rows == [rows[0]] + rows[1..];
    }
  }

  /** The rows under `parent` are exactly the table's rows with that parent. */
  lemma ChildrenExactly<T>(rows: seq<Row<T>>, parent: nat)
    ensures forall r :: r in multiset(Children(rows, parent)) <==> r in rows && r.parent == parent
    ensures |Children(rows, parent)| == Count(rows, parent)
  {
    ChildrenMembers(rows, parent);
    ChildrenCount(rows, parent);
  }

  lemma {:induction false} ChildrenMembers<T>(rows: seq<Row<T>>, parent: nat)
    ensures forall r :: r in multiset(Children(rows, parent)) <==> r in rows && r.parent == parent
  {
    if rows != [] {
      var n := |rows| - 1;
      ChildrenMembers(rows[..n], parent);
      assert rows == rows[..n] + [rows[n]];
    }
  }

  lemma {:induction false} ChildrenCount<T>(rows: seq<Row<T>>, parent: nat)
    ensures |Children(rows, parent)| == Count(rows, parent)
  {
    if rows != [] {
      var n := |rows| - 1;
      ChildrenCount(rows[..n], parent);
      assert rows == rows[..n] + [rows[n]];
      CountConcat(rows[..n], [rows[n]], parent);
      assert [rows[n]][1..] == [];
    }
  }

  /** A parent's rows read in position order: all of them, each once, sorted. */
  lemma ChildrenInOrderSpec<T>(rows: seq<Row<T>>, parent: nat)
    ensures SortedByOrder(ChildrenInOrder(rows, parent))
    ensures forall r :: r in multiset(ChildrenInOrder(rows, parent)) <==> r in rows && r.parent == parent
    ensures |ChildrenInOrder(rows, parent)| == Count(rows, parent)
  {
    SortByOrderSorted(Children(rows, parent));
    ChildrenExactly(rows, parent);
  }

  // ---------------------------------------------------------------------------
  // A well-formed table: unique keys below the next serial value, positions 1..k (or 0..k-1) per parent.

  predicate IdsBelow<T>(rows: seq<Row<T>>, next: nat)
  {
    forall i :: 0 <= i < |rows| ==> rows[i].id < next
  }

  ghost predicate WellFormed<T>(rows: seq<Row<T>>, base: int, next: nat)
  {
    UniqueIds(rows) && AllContiguous(rows, base) && IdsBelow(rows, next)
  }

  /** Appending a fresh key at the next position keeps the table well formed. */
  lemma AppendKeepsWellFormed<T>(rows: seq<Row<T>>, row: Row<T>, base: int, next: nat)
    requires WellFormed(rows, base, next) && row.id == next && row.order == Appended(rows, row.parent, base)
    ensures WellFormed(rows + [row], base, next + 1)
  {
    AppendKeepsAllContiguous(rows, row, base);
  }

  /** Delete with compaction keeps the table well formed. */
  lemma DeleteKeepsWellFormed<T>(rows: seq<Row<T>>, id: nat, base: int, next: nat)
    requires WellFormed(rows, base, next)
    ensures WellFormed(Deleted(rows, id), base, next)
  {
    DeleteKeepsAllContiguous(rows, id, base);
    WithoutKeepsUnique(rows, id);
    if Find(rows, id).Some? {
      DeletedAt(rows, id);
    }
  }

  /** Deleting every row of a parent keeps the table well formed. */
  lemma WithoutParentKeepsWellFormed<T>(rows: seq<Row<T>>, parent: nat, base: int, next: nat)
    requires WellFormed(rows, base, next)
    ensures WellFormed(WithoutParent(rows, parent), base, next)
  {
    WithoutParentKeepsAllContiguous(rows, parent, base);
    var w := WithoutParent(rows, parent);
    forall i | 0 <= i < |w|
      ensures w[i].id < next
    {
      WithoutParentFrom(rows, parent, i);
    }
  }

  /** Rewriting other columns in place keeps the table well formed. */
  lemma SameShapeKeepsWellFormed<T>(a: seq<Row<T>>, b: seq<Row<T>>, base: int, next: nat)
    requires |a| == |b|
    requires forall i :: 0 <= i < |a| ==> a[i].id == b[i].id && a[i].parent == b[i].parent && a[i].order == b[i].order
    requires WellFormed(a, base, next)
    ensures WellFormed(b, base, next)
  {
    SameShapeKeepsContiguous(a, b, base);
  }

  /** Delete with compaction keeps keys unique and below the next serial value. */
  lemma DeleteKeepsIdsBelow<T>(rows: seq<Row<T>>, id: nat, next: nat)
    requires UniqueIds(rows) && IdsBelow(rows, next)
    ensures UniqueIds(Deleted(rows, id)) && IdsBelow(Deleted(rows, id), next)
  {
    WithoutKeepsUnique(rows, id);
    if Find(rows, id).Some? {
      DeletedAt(rows, id);
    }
  }

  /** A reorder moves positions only, so keys stay unique and below the next serial value. */
  lemma ReorderKeepsIdsBelow<T>(rows: seq<Row<T>>, id: nat, to: int, next: nat)
    requires UniqueIds(rows) && IdsBelow(rows, next)
    ensures UniqueIds(Reordered(rows, id, to)) && IdsBelow(Reordered(rows, id, to), next)
  {
    if Find(rows, id).Some? {
      forall i | 0 <= i < |rows|
        ensures Reordered(rows, id, to)[i].id == rows[i].id
      {
        ReorderedAt(rows, id, to, i);
      }
      ReorderedAt(rows, id, to, 0);
    }
  }
}
