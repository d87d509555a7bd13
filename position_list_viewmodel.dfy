/**
  `PositionListViewModel`: the position list's sticky search and sort
  settings, deleting a position (refused while it has children) and saving a
  whole re-ordered hierarchy in one transaction.
 */
module PositionListViewModel {
  import opened Wrappers
  import opened Entities
  import opened Storage
  import opened TreeRepository
  import opened PositionRepository

  datatype SortOrder = Ascending | Descending

  /** The view model's two signals, `items_loaded(list)` and `error_occurred(str)`. */
  datatype Signal = ItemsLoaded(items: Table) | ErrorOccurred(message: string)

  /** One `{'id', 'parent_id', 'rank'}` entry of a hierarchy update. */
  datatype HierarchyEntry = HierarchyEntry(id: int, parentId: Option<int>, rank: int)

  const HasChildrenMessage := "此職務底下有子職務，無法刪除。請先刪除所有子職務。"
  const NotFoundMessage := "找不到要刪除的職務。"
  const DeleteErrorPrefix := "刪除職務時發生錯誤: "
  const HierarchyErrorPrefix := "更新職務層級時發生錯誤: "

  /** The table without the row(s) carrying `id`, order kept. */
  function DeleteRow(t: Table, id: int): (r: Table)
    ensures forall n :: n in r <==> n in t && n.id != id
    ensures |r| <= |t|
  {
    if t == [] then []
    else
      assert forall n :: n in t <==> n == t[0] || n in t[1..];
      (if t[0].id == id then [] else [t[0]]) + DeleteRow(t[1..], id)
  }

  /** `position.parent_id = p; position.rank = k` on the row with `id`. */
  function SetParentRank(t: Table, id: int, p: Option<int>, k: int): (r: Table)
    ensures |r| == |t|
    ensures forall i :: 0 <= i < |t| ==> r[i] == if t[i].id == id then t[i].(parentId := p, rank := Some(k)) else t[i]
  {
    seq(|t|, i requires 0 <= i < |t| => if t[i].id == id then t[i].(parentId := p, rank := Some(k)) else t[i])
  }

  /** The entries applied one after another, skipping ids with no row. */
  function ApplyEntries(t: Table, es: seq<HierarchyEntry>): Table
  {
    if es == [] then t
    else
      var e := es[|es| - 1];
      var before := ApplyEntries(t, es[..|es| - 1]);
      if Find(before, e.id).Some? then SetParentRank(before, e.id, e.parentId, e.rank) else before
  }

  /** The last entry for `id`, the one whose values stick. */
  function LastEntry(es: seq<HierarchyEntry>, id: int): (r: Option<HierarchyEntry>)
    ensures r.Some? ==> r.value in es && r.value.id == id
    ensures r.None? <==> forall e :: e in es ==> e.id != id
  {
    if es == [] then None
    else if es[|es| - 1].id == id then Some(es[|es| - 1])
    else
      assert forall e :: e in es <==> e == es[|es| - 1] || e in es[..|es| - 1];
      LastEntry(es[..|es| - 1], id)
  }

  /**
    The batch update row by row: a listed row takes the parent and rank of
    the last entry naming it; every other row, and every name and id, stays.
   */
  lemma {:induction false} ApplyEntriesRows(t: Table, es: seq<HierarchyEntry>)
    ensures |ApplyEntries(t, es)| == |t|
    ensures forall i :: 0 <= i < |t| ==> (ApplyEntries(t, es)[i] ==
      match LastEntry(es, t[i].id)
      case None => t[i]
      case Some(e) => t[i].(parentId := e.parentId, rank := Some(e.rank)))
  {
    if es != [] {
      var init := es[..|es| - 1];
      var e := es[|es| - 1];
      ApplyEntriesRows(t, init);
      var before := ApplyEntries(t, init);
      assert forall i :: 0 <= i < |t| ==> before[i].id == t[i].id;
      if Find(before, e.id).None? {
        assert forall i :: 0 <= i < |t| ==> before[i] in before;
      }
    }
  }

  /** A list whose ids are already all in place leaves the row set's ids unchanged. */
  lemma ApplyEntriesKeepsIds(t: Table, es: seq<HierarchyEntry>)
    ensures Ids(ApplyEntries(t, es)) == Ids(t)
    ensures UniqueIds(t) ==> UniqueIds(ApplyEntries(t, es))
  {
    ApplyEntriesRows(t, es);
    var r := ApplyEntries(t, es);
    assert forall i :: 0 <= i < |t| ==> r[i].id == t[i].id;
    forall x | x in Ids(r) ensures x in Ids(t) {
      var n :| n in r && n.id == x;
      var i :| 0 <= i < |r| && r[i] == n;
      assert t[i] in t;
    }
    forall x | x in Ids(t) ensures x in Ids(r) {
      var n :| n in t && n.id == x;
      var i :| 0 <= i < |t| && t[i] == n;
      assert r[i] in r;
    }
  }

  class PositionListViewModel {
    const session: Session
    var currentSearchTerm: string
    var currentSortColumn: int
    var currentSortOrder: SortOrder

    /** The settings start as: no search term, column 0 (id), ascending. */
    constructor (session: Session)
      ensures this.session == session
      ensures currentSearchTerm == "" && currentSortColumn == 0 && currentSortOrder == Ascending
    {
      this.session := session;
      currentSearchTerm := "";
      currentSortColumn := 0;
      currentSortOrder := Ascending;
    }

    /**
      `load_positions`: a given setting replaces the stored one, an omitted
      one keeps it; the list is the stored term's matches in
      (parent_id, rank) order. The sort column is latched but, as in the
      source, does not change the order.
     */
    method LoadPositions(searchTerm: Option<string>, sortColumn: Option<int>, sortOrder: Option<SortOrder>)
      returns (emitted: Signal)
      modifies this
      ensures currentSearchTerm == if searchTerm.Some? then searchTerm.value else old(currentSearchTerm)
      ensures currentSortColumn == if sortColumn.Some? then sortColumn.value else old(currentSortColumn)
      ensures currentSortOrder == if sortOrder.Some? then sortOrder.value else old(currentSortOrder)
      ensures emitted == ItemsLoaded(GetAllSorted(session.working.positions, Some(currentSearchTerm)))
    {
      if searchTerm.Some? {
        currentSearchTerm := searchTerm.value;
      }
      if sortColumn.Some? {
        currentSortColumn := sortColumn.value;
      }
      if sortOrder.Some? {
        currentSortOrder := sortOrder.value;
      }
      emitted := ItemsLoaded(GetAllSorted(session.working.positions, Some(currentSearchTerm)));
    }

    /**
      `delete_position`: a missing id and a position with children are
      refused with their messages and change nothing; otherwise the row alone
      is deleted and committed, or on failure everything is rolled back.
     */
    method DeletePosition(id: int, fault: Option<string>) returns (emitted: seq<Signal>)
      requires session.db.Valid()
      modifies this, session, session.db
      ensures session.db.Valid()
      ensures currentSearchTerm == old(currentSearchTerm) && currentSortColumn == old(currentSortColumn)
      ensures currentSortOrder == old(currentSortOrder)
      ensures Find(old(session.working.positions), id).None? ==>
        emitted == [ErrorOccurred(NotFoundMessage)] && unchanged(session, session.db)
      ensures Find(old(session.working.positions), id).Some? && ChildRows(old(session.working.positions), id) != [] ==>
        emitted == [ErrorOccurred(HasChildrenMessage)] && unchanged(session, session.db)
      ensures Find(old(session.working.positions), id).Some? && ChildRows(old(session.working.positions), id) == [] ==>
        var after := old(session.working).(positions := DeleteRow(old(session.working.positions), id));
        match WriteOutcome(after, fault)
        case None =>
          session.db.state == session.working == after
          && emitted == [ItemsLoaded(GetAllSorted(after.positions, Some(currentSearchTerm)))]
        case Some(e) =>
          session.db.state == session.working == old(session.db.state)
          && emitted == [ErrorOccurred(DeleteErrorPrefix + ErrorText(e))]
    {
      var position := Find(session.working.positions, id);
      if position.Some? {
        if ChildRows(session.working.positions, id) != [] {
          emitted := [ErrorOccurred(HasChildrenMessage)];
          return;
        }
        var after := session.working.(positions := DeleteRow(session.working.positions, id));
        session.working := after;
        var e := session.Commit(fault);
        assert e == WriteOutcome(after, fault);
        if e.None? {
          var loaded := LoadPositions(None, None, None);
          emitted := [loaded];
        } else {
          session.Rollback();
          emitted := [ErrorOccurred(DeleteErrorPrefix + ErrorText(e.value))];
        }
      } else {
        emitted := [ErrorOccurred(NotFoundMessage)];
      }
    }

    /**
      `update_positions_hierarchy`: every entry is applied in order and the
      batch is committed as one; if the commit fails nothing of it remains.
     */
    method UpdatePositionsHierarchy(entries: seq<HierarchyEntry>, fault: Option<string>) returns (emitted: seq<Signal>)
      requires session.db.Valid()
      modifies this, session, session.db
      ensures session.db.Valid()
      ensures currentSearchTerm == old(currentSearchTerm) && currentSortColumn == old(currentSortColumn)
      ensures currentSortOrder == old(currentSortOrder)
      ensures var after := old(session.working).(positions := ApplyEntries(old(session.working.positions), entries));
        match WriteOutcome(after, fault)
        case None =>
          session.db.state == session.working == after
          && emitted == [ItemsLoaded(GetAllSorted(after.positions, Some(currentSearchTerm)))]
        case Some(e) =>
          session.db.state == session.working == old(session.db.state)
          && emitted == [ErrorOccurred(HierarchyErrorPrefix + ErrorText(e))]
    {
      var i := 0;
      while i < |entries|
        invariant 0 <= i <= |entries|
        invariant session.working == old(session.working).(positions := ApplyEntries(old(session.working.positions), entries[..i]))
        invariant unchanged(this, session.db)
      {
        var item := entries[i];
        assert entries[..i + 1][..i] == entries[..i];
        var position := Find(session.working.positions, item.id);
        if position.Some? {
          session.working := session.working.(positions := SetParentRank(session.working.positions, item.id, item.parentId, item.rank));
        }
        i := i + 1;
      }
      assert entries[..|entries|] == entries;
      var e := session.Commit(fault);
      if e.None? {
        var loaded := LoadPositions(None, None, None);
        emitted := [loaded];
      } else {
        session.Rollback();
        emitted := [ErrorOccurred(HierarchyErrorPrefix + ErrorText(e.value))];
      }
    }
  }
}
