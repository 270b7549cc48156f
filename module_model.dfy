// Modules of a course, ordered by order_index counting from 0
// (server/models/moduleModel.js).

module ModuleModel {
  import opened Wrappers
  import opened Ordering
  import Sql

  datatype ModuleData = ModuleData(title: string, description: Option<string>)

  type ModuleRow = Row<ModuleData>

  /** The arguments of `update`; `None` is undefined. */
  datatype ModuleChanges = ModuleChanges(title: Option<string>, description: Option<string>, orderIndex: Option<int>)

  datatype ModuleValue = Text(s: string) | Number(n: int)

  /** The entry list `update` builds: the defined fields among title/description/order_index, then updated_at. */
  function ModuleUpdateEntries(c: ModuleChanges): (e: seq<Sql.Entry<ModuleValue>>)
    ensures Sql.InlineOnlyLast(e) && |e| >= 1 && e[|e| - 1] == Sql.Inline("updated_at")
  {
    Sql.Defined([
      ("title", if c.title.Some? then Some(Text(c.title.value)) else None),
      ("description", if c.description.Some? then Some(Text(c.description.value)) else None),
      ("order_index", if c.orderIndex.Some? then Some(Number(c.orderIndex.value)) else None)])
    + [Sql.Inline("updated_at")]
  }

  /**
   * The statement `update` sends: the list is never empty (so the early return for "no
   * fields" is unreachable), it names exactly the defined fields plus updated_at, and each
   * placeholder `$k` stands for the value at position `k - 2`.
   */
  lemma ModuleUpdateStatement(c: ModuleChanges)
    ensures var e := ModuleUpdateEntries(c);
      |e| > 0 &&
      |Sql.Values(e)| == |e| - 1 == (if c.title.Some? then 1 else 0) + (if c.description.Some? then 1 else 0) + (if c.orderIndex.Some? then 1 else 0)
    ensures var e := ModuleUpdateEntries(c);
      forall k :: 0 <= k < |Sql.Values(e)| ==> Sql.SetClause(e)[k] == Sql.Param(e[k].column, k + 2) && Sql.Values(e)[k] == e[k].value
    ensures var e := ModuleUpdateEntries(c);
      Sql.SetClause(e)[|e| - 1] == Sql.Timestamp("updated_at")
  {
    var f := [
      ("title", if c.title.Some? then Some(Text(c.title.value)) else None),
      ("description", if c.description.Some? then Some(Text(c.description.value)) else None),
      ("order_index", if c.orderIndex.Some? then Some(Number(c.orderIndex.value)) else None)];
    var n2 := if c.orderIndex.Some? then 1 else 0;
    var n1 := n2 + if c.description.Some? then 1 else 0;
    assert f[1..][1..][1..] == [];
    assert |Sql.Defined(f[1..][1..])| == n2;
    assert |Sql.Defined(f[1..])| == n1;
    var e := ModuleUpdateEntries(c);
    var d := e[..|e| - 1];
    assert d == Sql.Defined(f);
    assert d + [Sql.Inline("updated_at")] == e;
    Sql.ValuesOfBound(d);
    assert Sql.Values(e) == Sql.Values(d);
    Sql.PlaceholdersMatchValues(e);
  }

  /** The row after `update`: each defined field is written, the others kept. */
  function UpdatedModule(r: ModuleRow, c: ModuleChanges): (u: ModuleRow)
    ensures u.id == r.id && u.parent == r.parent
    ensures c == ModuleChanges(None, None, None) ==> u == r
    ensures c.orderIndex.None? ==> u.order == r.order
  {
    r.(order := if c.orderIndex.Some? then c.orderIndex.value else r.order,
       data := ModuleData(
         if c.title.Some? then c.title.value else r.data.title,
         if c.description.Some? then c.description else r.data.description))
  }

  class ModuleStore {
    var modules: seq<ModuleRow>
    var nextId: nat

    ghost predicate Valid()
      reads this
    {
      UniqueIds(modules) && IdsBelow(modules, nextId)
    }

    constructor ()
      ensures Valid() && modules == []
    {
      modules, nextId := [], 0;
    }

    /** `create`: an omitted order_index takes the next index in the course (0 for the first). */
    method Create(title: string, description: Option<string>, courseId: nat, orderIndex: Option<int>)
      returns (r: ModuleRow)
      requires Valid()
      modifies this
      ensures Valid()
      ensures r == Row(old(nextId), courseId,
        if orderIndex.Some? then orderIndex.value else NextIndex(old(modules), courseId),
        ModuleData(title, description))
      ensures modules == old(modules) + [r] && nextId == old(nextId) + 1
    {
      var index := if orderIndex.Some? then orderIndex.value else NextIndex(modules, courseId);
      r := Row(nextId, courseId, index, ModuleData(title, description));
      modules := modules + [r];
      nextId := nextId + 1;
    }

    /** `update`: writes the defined fields; an unknown key gives no row. */
    method Update(id: nat, c: ModuleChanges) returns (r: Option<ModuleRow>)
      requires Valid()
      modifies this
      ensures Valid()
      ensures |modules| == |old(modules)|
      ensures forall i :: 0 <= i < |modules| ==>
        modules[i] == if old(modules)[i].id == id then UpdatedModule(old(modules)[i], c) else old(modules)[i]
      ensures r == (if Find(old(modules), id).Some? then Some(modules[Find(old(modules), id).value]) else None)
      ensures nextId == old(nextId)
    {
      var t := Find(modules, id);
      var rows := modules;
      modules := seq(|rows|, i requires 0 <= i < |rows| =>
        if rows[i].id == id then UpdatedModule(rows[i], c) else rows[i]);
      r := if t.Some? then Some(modules[t.value]) else None;
    }

    /** `delete`: an unknown module gives null; otherwise the later modules of its course move up. */
    method Delete(id: nat) returns (r: Option<ModuleRow>)
      requires Valid()
      modifies this
      ensures Valid()
      ensures r == (if Find(old(modules), id).Some? then Some(old(modules)[Find(old(modules), id).value]) else None)
      ensures modules == Deleted(old(modules), id)
      ensures nextId == old(nextId)
    {
      var t := Find(modules, id);
      if t.None? {
        return None;
      }
      r := Some(modules[t.value]);
      DeleteKeepsIdsBelow(modules, id, nextId);
      modules := DeleteAndCompact(modules, id);
    }

    /**
     * `reorder`: an unknown module throws 'Module not found'; an unchanged index returns the
     * module untouched; otherwise the modules in between shift and the module takes the index.
     */
    method Reorder(id: nat, newIndex: int) returns (r: Result<ModuleRow>)
      requires Valid()
      modifies this
      ensures Valid()
      ensures Find(old(modules), id).None? ==> r == Fail("Module not found") && modules == old(modules)
      ensures Find(old(modules), id).Some? ==>
        modules == Reordered(old(modules), id, newIndex) &&
        r == Ok(old(modules)[Find(old(modules), id).value].(order := newIndex))
      ensures nextId == old(nextId)
    {
      var t := Find(modules, id);
      if t.None? {
        return Fail("Module not found");
      }
      var i := t.value;
      ReorderedAt(modules, id, newIndex, i);
      ReorderKeepsIdsBelow(modules, id, newIndex, nextId);
      modules := MoveAndShift(modules, id, newIndex);
      r := Ok(modules[i]);
    }
  }
}
