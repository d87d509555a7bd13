/**
  `MemberDialogViewModel`: the member dialog's scratch fields (name, phone,
  schedulable flag, region), filled from the edited member or with defaults,
  changed by the setters and written to the store only by `save`, on the
  session shared with the rest of the application.
 */
module MemberDialogViewModel {
  import opened Wrappers
  import opened Entities
  import opened Storage

  /** `is_schedulable` is an Integer column: `True` is stored as 1, `False` as 0. */
  function SchedulableColumn(b: bool): int
  {
    if b then 1 else 0
  }

  /** The member row with `id` given the four edited fields; other rows kept. */
  function WriteMember(ms: seq<Member>, id: int, name: string, phone: Option<string>, schedulable: bool, region: Option<int>): (r: seq<Member>)
    ensures |r| == |ms|
    ensures forall i :: 0 <= i < |ms| ==> (r[i] ==
      if ms[i].id == id then Member(id, name, phone, SchedulableColumn(schedulable), region) else ms[i])
  {
    seq(|ms|, i requires 0 <= i < |ms| =>
      if ms[i].id == id then Member(id, name, phone, SchedulableColumn(schedulable), region) else ms[i])
  }

  /** `Member(name=..., phone_number=..., is_schedulable=..., region_id=...)` once inserted with the next rowid. */
  function NewMember(ms: seq<Member>, name: string, phone: Option<string>, schedulable: bool, region: Option<int>): Member
  {
    Member(NextId(MemberIds(ms)), name, phone, SchedulableColumn(schedulable), region)
  }

  /** The working state once `save` has written the scratch fields (before the commit). */
  function Written(working: Db, editing: Option<Member>, name: string, phone: Option<string>, schedulable: bool, region: Option<int>): Db
  {
    if editing.Some? then working.(members := WriteMember(working.members, editing.value.id, name, phone, schedulable, region))
    else working.(members := working.members + [NewMember(working.members, name, phone, schedulable, region)])
  }

  /** `save` as a function: the committed state afterwards and whether `saved_successfully` was emitted. */
  function SaveSpec(working: Db, committed: Db, editing: Option<Member>, name: string, phone: Option<string>,
                    schedulable: bool, region: Option<int>, fault: Option<string>): (Db, bool)
  {
    var after := Written(working, editing, name, phone, schedulable, region);
    if WriteOutcome(after, fault).None? then (after, true) else (committed, false)
  }

  /** Another member than the edited one already has this (non-null) phone number. */
  predicate PhoneTakenByOther(ms: seq<Member>, editing: Option<Member>, phone: Option<string>)
  {
    phone.Some? && exists m :: m in ms && m.phoneNumber == phone && (editing.Some? ==> m.id != editing.value.id)
  }

  lemma NewMemberIdIsFresh(ms: seq<Member>, name: string, phone: Option<string>, schedulable: bool, region: Option<int>)
    ensures forall m :: m in ms ==> m.id != NewMember(ms, name, phone, schedulable, region).id
  {
    var ids := MemberIds(ms);
    forall m | m in ms ensures m.id != NewMember(ms, name, phone, schedulable, region).id {
      var i :| 0 <= i < |ms| && ms[i] == m;
      assert ids[i] == m.id;
    }
  }

  /**
    On a consistent working state in which the edited member still exists,
    the written state breaks a constraint exactly when another member already
    has the phone number, and then it is the phone constraint.
   */
  lemma WrittenViolation(working: Db, editing: Option<Member>, name: string, phone: Option<string>,
                         schedulable: bool, region: Option<int>)
    requires Consistent(working)
    requires editing.Some? ==> exists m :: m in working.members && m.id == editing.value.id
    ensures Violated(Written(working, editing, name, phone, schedulable, region)) ==
      if PhoneTakenByOther(working.members, editing, phone) then Some(PhoneTaken) else None
  {
    if editing.Some? {
      EditedViolation(working, editing, name, phone, schedulable, region);
    } else {
      AddedViolation(working, name, phone, schedulable, region);
    }
  }

  lemma EditedViolation(working: Db, editing: Option<Member>, name: string, phone: Option<string>,
                        schedulable: bool, region: Option<int>)
    requires Consistent(working)
    requires editing.Some? && exists m :: m in working.members && m.id == editing.value.id
    ensures Violated(Written(working, editing, name, phone, schedulable, region)) ==
      if PhoneTakenByOther(working.members, editing, phone) then Some(PhoneTaken) else None
  {
    var ms := working.members;
    var after := Written(working, editing, name, phone, schedulable, region);
    var r := after.members;
    var id := editing.value.id;
    var k :| 0 <= k < |ms| && ms[k].id == id by {
      var m :| m in ms && m.id == id;
      var k :| 0 <= k < |ms| && ms[k] == m;
    }
    assert UniqueMemberIds(r);
    if PhoneTakenByOther(ms, editing, phone) {
      var m :| m in ms && m.phoneNumber == phone && m.id != id;
      var j :| 0 <= j < |ms| && ms[j] == m;
      assert r[j] == m && r[k].phoneNumber == phone && j != k;
      assert !UniquePhones(r) by {
        if j < k { assert r[j].phoneNumber == r[k].phoneNumber; } else { assert r[k].phoneNumber == r[j].phoneNumber; }
      }
    } else {
      forall i, j | 0 <= i < j < |r| && r[i].phoneNumber.Some? ensures r[i].phoneNumber != r[j].phoneNumber {
        if ms[i].id == id {
          assert ms[j].id != id;
          assert ms[j] in ms;
        } else if ms[j].id == id {
          assert ms[i] in ms;
        }
      }
    }
  }

  lemma AddedViolation(working: Db, name: string, phone: Option<string>, schedulable: bool, region: Option<int>)
    requires Consistent(working)
    ensures Violated(Written(working, None, name, phone, schedulable, region)) ==
      if PhoneTakenByOther(working.members, None, phone) then Some(PhoneTaken) else None
  {
    var ms := working.members;
    var r := Written(working, None, name, phone, schedulable, region).members;
    var added := NewMember(ms, name, phone, schedulable, region);
    NewMemberIdIsFresh(ms, name, phone, schedulable, region);
    assert forall i :: 0 <= i < |ms| ==> r[i] == ms[i];
    assert r[|ms|] == added;
    forall i, j | 0 <= i < j < |r| ensures r[i].id != r[j].id {
      if j == |ms| { assert ms[i] in ms; }
    }
    if PhoneTakenByOther(ms, None, phone) {
      var m :| m in ms && m.phoneNumber == phone;
      var j :| 0 <= j < |ms| && ms[j] == m;
      assert r[j].phoneNumber == r[|ms|].phoneNumber;
    } else {
      forall i, j | 0 <= i < j < |r| && r[i].phoneNumber.Some? ensures r[i].phoneNumber != r[j].phoneNumber {
        if j == |ms| { assert ms[i] in ms; }
      }
    }
  }

  /**
    A save commits, and `saved_successfully` is emitted, exactly when no other
    member has the phone number and storage does not fail; a save that does
    not commit leaves the committed state as it was. A committed edit holds
    exactly the scratch fields in the edited row and changes no other row; a
    committed add appends one member, with a fresh id, carrying them.
   */
  lemma SaveOutcomes(working: Db, committed: Db, editing: Option<Member>, name: string, phone: Option<string>,
                     schedulable: bool, region: Option<int>, fault: Option<string>)
    requires Consistent(working)
    requires editing.Some? ==> exists m :: m in working.members && m.id == editing.value.id
    ensures var (db, saved) := SaveSpec(working, committed, editing, name, phone, schedulable, region, fault);
      && (saved <==> !PhoneTakenByOther(working.members, editing, phone) && fault.None?)
      && (!saved ==> db == committed)
      && (saved && editing.Some? ==>
            db == working.(members := db.members) && |db.members| == |working.members|
            && forall i :: 0 <= i < |db.members| ==>
                 (db.members[i] == if working.members[i].id == editing.value.id
                                   then Member(editing.value.id, name, phone, SchedulableColumn(schedulable), region)
                                   else working.members[i]))
      && (saved && editing.None? ==>
            exists id :: db == working.(members := working.members + [Member(id, name, phone, SchedulableColumn(schedulable), region)])
                         && forall m :: m in working.members ==> m.id != id)
  {
    WrittenViolation(working, editing, name, phone, schedulable, region);
    NewMemberIdIsFresh(working.members, name, phone, schedulable, region);
  }

  class MemberDialogViewModel {
    const session: Session
    /** The member the dialog edits, None in add mode. */
    const memberData: Option<Member>
    var name: string
    var phoneNumber: Option<string>
    var isSchedulable: bool
    var regionId: Option<int>

    /** In edit mode the scratch fields start from the member, in add mode from "", "", True, None. */
    constructor (session: Session, memberData: Option<Member>)
      ensures this.session == session && this.memberData == memberData
      ensures IsEditing() <==> memberData.Some?
      ensures memberData.Some? ==>
        name == memberData.value.name && phoneNumber == memberData.value.phoneNumber
        && isSchedulable == (memberData.value.isSchedulable != 0) && regionId == memberData.value.regionId
      ensures memberData.None? ==> name == "" && phoneNumber == Some("") && isSchedulable && regionId == None
    {
      this.session := session;
      this.memberData := memberData;
      if memberData.Some? {
        name := memberData.value.name;
        phoneNumber := memberData.value.phoneNumber;
        isSchedulable := memberData.value.isSchedulable != 0;
        regionId := memberData.value.regionId;
      } else {
        name := "";
        phoneNumber := Some("");
        isSchedulable := true;
        regionId := None;
      }
    }

    /** `is_editing()`: a member was given at construction. */
    predicate IsEditing()
      reads this
    {
      memberData.Some?
    }

    /** The `name` setter: only the scratch field changes. */
    method SetName(value: string)
      modifies this`name
      ensures name == value
    {
      name := value;
    }

    /** The `phone_number` setter. */
    method SetPhoneNumber(value: Option<string>)
      modifies this`phoneNumber
      ensures phoneNumber == value
    {
      phoneNumber := value;
    }

    /** The `is_schedulable` setter. */
    method SetIsSchedulable(value: bool)
      modifies this`isSchedulable
      ensures isSchedulable == value
    {
      isSchedulable := value;
    }

    /** The `region_id` setter. */
    method SetRegionId(value: Option<int>)
      modifies this`regionId
      ensures regionId == value
    {
      regionId := value;
    }

    /**
      `save`: write the scratch fields into the edited member (or add a new
      member with them) and commit; on failure roll the session back and
      emit nothing.
     */
    method Save(fault: Option<string>) returns (savedSuccessfully: bool)
      requires session.db.Valid()
      modifies session, session.db
      ensures session.db.Valid()
      ensures (session.db.state, savedSuccessfully)
        == SaveSpec(old(session.working), old(session.db.state), memberData, name, phoneNumber, isSchedulable, regionId, fault)
      ensures session.working == session.db.state
    {
      if IsEditing() {
        session.working := session.working.(members :=
          WriteMember(session.working.members, memberData.value.id, name, phoneNumber, isSchedulable, regionId));
      } else {
        var m := NewMember(session.working.members, name, phoneNumber, isSchedulable, regionId);
        session.working := session.working.(members := session.working.members + [m]);
      }
      var e := session.Commit(fault);
      if e.None? {
        savedSuccessfully := true;
      } else {
        session.Rollback();
        savedSuccessfully := false;
      }
    }
  }
}
