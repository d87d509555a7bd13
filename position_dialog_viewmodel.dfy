/**
  `PositionDialogViewModel`: add a position or rename the one being edited,
  each save in a session of its own; a name that is already taken is
  reported with its own message.
 */
module PositionDialogViewModel {
  import opened Wrappers
  import opened Entities
  import opened Text
  import opened Storage

  /** `position_saved()` and `error_occurred(str)`. */
  datatype Signal = PositionSaved | ErrorOccurred(message: string)

  const NotFoundMessage := "找不到要更新的職務。"
  const DuplicateNameMessage := "職務名稱已存在，請使用其他名稱。"
  const IntegrityPrefix := "儲存職務時發生資料庫完整性錯誤: "
  const UnknownPrefix := "儲存職務時發生未知錯誤: "
  const NameConstraint := "UNIQUE constraint failed: positions.name"

  /** `position.name = name` on the row with `id`. */
  function Rename(t: Table, id: int, name: string): (r: Table)
    ensures |r| == |t|
    ensures forall i :: 0 <= i < |t| ==> r[i] == if t[i].id == id then t[i].(name := name) else t[i]
  {
    seq(|t|, i requires 0 <= i < |t| => if t[i].id == id then t[i].(name := name) else t[i])
  }

  /** `Position(name=name)` once inserted: the next rowid, no parent, a NULL rank. */
  function NewPosition(t: Table, name: string): TreeNode
  {
    TreeNode(NextId(NodeIds(t)), name, None, None)
  }

  /** The message for a failed commit: the `except IntegrityError` branch tests the text for the name constraint. */
  function SaveErrorMessage(e: CommitError): string
  {
    match e
    case IntegrityError(_) =>
      if Contains(ErrorText(e), NameConstraint) then DuplicateNameMessage else IntegrityPrefix + ErrorText(e)
    case OperationalError(_) => UnknownPrefix + ErrorText(e)
  }

  /** The positions table a save would commit: the edited row renamed, or a new row appended. */
  function SavedPositions(t: Table, editing: Option<TreeNode>, name: string): Table
  {
    if editing.Some? then Rename(t, editing.value.id, name) else t + [NewPosition(t, name)]
  }

  /** `save_position` as a function of the committed state: the new state and the signal emitted. */
  function SaveSpec(db: Db, editing: Option<TreeNode>, name: string, fault: Option<string>): (Db, Signal)
  {
    if editing.Some? && Find(db.positions, editing.value.id).None? then (db, ErrorOccurred(NotFoundMessage))
    else
      var after := db.(positions := SavedPositions(db.positions, editing, name));
      match WriteOutcome(after, fault)
      case None => (after, PositionSaved)
      case Some(e) => (db, ErrorOccurred(SaveErrorMessage(e)))
  }

  /** Some position other than `editing` already has `name`. */
  predicate NameTaken(t: Table, editing: Option<TreeNode>, name: string)
  {
    exists n :: n in t && n.name == name && (editing.Some? ==> n.id != editing.value.id)
  }

  lemma NewIdIsFresh(t: Table, name: string)
    ensures NewPosition(t, name).id !in Ids(t)
  {
    var ids := NodeIds(t);
    forall n | n in t ensures n.id != NewPosition(t, name).id {
      var i :| 0 <= i < |t| && t[i] == n;
      assert ids[i] == n.id;
    }
  }

  /** Renaming row `k` to the name of another row `j` breaks the name constraint. */
  lemma RenameClash(t: Table, id: int, name: string, j: nat, k: nat)
    requires j < |t| && k < |t| && t[k].id == id && t[j].id != id && t[j].name == name
    ensures !UniqueNames(Rename(t, id, name))
  {
    var r := Rename(t, id, name);
    assert r[j].name == r[k].name && j != k;
    if j < k { assert r[j].name == r[k].name; } else { assert r[k].name == r[j].name; }
  }

  /** Renaming to a name no other row has keeps the names unique. */
  lemma RenameNoClash(t: Table, id: int, name: string)
    requires UniqueIds(t) && UniqueNames(t)
    requires !exists n :: n in t && n.name == name && n.id != id
    ensures UniqueNames(Rename(t, id, name))
  {
    var r := Rename(t, id, name);
    forall i, j | 0 <= i < j < |r| ensures r[i].name != r[j].name {
      if t[i].id == id {
        assert t[j].id != id;
        assert t[j] in t;
      } else if t[j].id == id {
        assert t[i] in t;
      }
    }
  }

  /** Renaming changes no id. */
  lemma RenameKeepsIds(t: Table, id: int, name: string)
    requires UniqueIds(t)
    ensures UniqueIds(Rename(t, id, name))
  {
    var r := Rename(t, id, name);
    assert forall i :: 0 <= i < |t| ==> r[i].id == t[i].id;
  }

  /** Renaming a stored row keeps the ids unique, and keeps the names unique exactly when no other row has the name. */
  lemma RenameUniqueness(t: Table, id: int, name: string)
    requires UniqueIds(t) && UniqueNames(t) && Find(t, id).Some?
    ensures UniqueIds(Rename(t, id, name))
    ensures UniqueNames(Rename(t, id, name)) <==> !exists n :: n in t && n.name == name && n.id != id
  {
    RenameKeepsIds(t, id, name);
    if exists n :: n in t && n.name == name && n.id != id {
      var n :| n in t && n.name == name && n.id != id;
      var j :| 0 <= j < |t| && t[j] == n;
      var k :| 0 <= k < |t| && t[k] == Find(t, id).value;
      RenameClash(t, id, name, j, k);
    } else {
      RenameNoClash(t, id, name);
    }
  }

  /** Appending the new row keeps the ids unique, and keeps the names unique exactly when no row has the name. */
  lemma AppendUniqueness(t: Table, name: string)
    requires UniqueIds(t) && UniqueNames(t)
    ensures UniqueIds(t + [NewPosition(t, name)])
    ensures UniqueNames(t + [NewPosition(t, name)]) <==> !exists n :: n in t && n.name == name
  {
    var added := NewPosition(t, name);
    var r := t + [added];
    NewIdIsFresh(t, name);
    assert forall i :: 0 <= i < |t| ==> r[i] == t[i];
    assert r[|t|] == added;
    forall i, j | 0 <= i < j < |r| ensures r[i].id != r[j].id {
      if j == |t| { assert t[i] in t; }
    }
    if exists n :: n in t && n.name == name {
      var n :| n in t && n.name == name;
      var j :| 0 <= j < |t| && t[j] == n;
      assert r[j].name == r[|t|].name;
    } else {
      forall i, j | 0 <= i < j < |r| ensures r[i].name != r[j].name {
        if j == |t| { assert t[i] in t; }
      }
    }
  }

  /** On a consistent state, a save can break only the name constraint, and breaks it exactly when the name is taken. */
  lemma SavedPositionsViolation(db: Db, editing: Option<TreeNode>, name: string)
    requires Consistent(db)
    requires editing.Some? ==> Find(db.positions, editing.value.id).Some?
    ensures var after := db.(positions := SavedPositions(db.positions, editing, name));
      Violated(after) == if NameTaken(db.positions, editing, name) then Some(PositionNameTaken) else None
  {
    if editing.Some? {
      RenameUniqueness(db.positions, editing.value.id, name);
    } else {
      AppendUniqueness(db.positions, name);
    }
  }

  lemma NameConstraintClassified()
    ensures SaveErrorMessage(IntegrityError(PositionNameTaken)) == DuplicateNameMessage
  {
    var text := ErrorText(IntegrityError(PositionNameTaken));
    assert OccursAt(text, NameConstraint, 25);
  }

  /**
    A save that finds its row (or adds one) fails with the duplicate-name
    message exactly when another position has the name, commits exactly when
    the name is free and storage does not fail, and leaves the committed
    state unchanged whenever it does not commit.
   */
  lemma SaveOutcomes(db: Db, editing: Option<TreeNode>, name: string, fault: Option<string>)
    requires Consistent(db)
    requires editing.Some? ==> Find(db.positions, editing.value.id).Some?
    ensures NameTaken(db.positions, editing, name) <==> SaveSpec(db, editing, name, fault).1 == ErrorOccurred(DuplicateNameMessage)
    ensures SaveSpec(db, editing, name, fault).1 == PositionSaved <==> !NameTaken(db.positions, editing, name) && fault.None?
    ensures SaveSpec(db, editing, name, fault).1 != PositionSaved ==> SaveSpec(db, editing, name, fault).0 == db
  {
    SavedPositionsViolation(db, editing, name);
    NameConstraintClassified();
    if !NameTaken(db.positions, editing, name) && fault.Some? {
      var m := UnknownPrefix + fault.value;
      assert m[0] == UnknownPrefix[0] != DuplicateNameMessage[0];
    }
  }

  /** A rename touches only the name of the edited row; an add appends one row with a fresh id. */
  lemma SavedPositionsShape(t: Table, editing: Option<TreeNode>, name: string)
    ensures editing.Some? ==> forall i :: 0 <= i < |t| ==> (SavedPositions(t, editing, name)[i] ==
      if t[i].id == editing.value.id then t[i].(name := name) else t[i])
    ensures editing.None? ==> (SavedPositions(t, editing, name) == t + [TreeNode(NewPosition(t, name).id, name, None, None)]
      && NewPosition(t, name).id !in Ids(t))
  {
    NewIdIsFresh(t, name);
  }

  class PositionDialogViewModel {
    var position: Option<TreeNode>

    constructor ()
      ensures position == None
    {
      position := None;
    }

    /** `set_position`: None means add mode. */
    method SetPosition(p: Option<TreeNode>)
      modifies this
      ensures position == p
    {
      position := p;
    }

    /** `get_position_name`: the edited position's name, or "" in add mode. */
    function GetPositionName(): (r: string)
      reads this
      ensures position.Some? ==> r == position.value.name
      ensures position.None? ==> r == ""
    {
      if position.Some? then position.value.name else ""
    }

    /**
      `save_position`: in a session of its own, rename the edited row (or
      report that it is gone) or insert a new one, then commit.
     */
    method SavePosition(db: Database, name: string, fault: Option<string>) returns (emitted: Signal)
      requires db.Valid()
      modifies db
      ensures db.Valid()
      ensures (db.state, emitted) == SaveSpec(old(db.state), position, name, fault)
    {
      var session := new Session(db);
      if position.Some? {
        var found := Find(session.working.positions, position.value.id);
        if found.Some? {
          session.working := session.working.(positions := Rename(session.working.positions, position.value.id, name));
        } else {
          emitted := ErrorOccurred(NotFoundMessage);
          return;
        }
      } else {
        var p := NewPosition(session.working.positions, name);
        session.working := session.working.(positions := session.working.positions + [p]);
      }
      var e := session.Commit(fault);
      if e.None? {
        emitted := PositionSaved;
      } else {
        session.Rollback();
        emitted := ErrorOccurred(SaveErrorMessage(e.value));
      }
    }
  }
}
