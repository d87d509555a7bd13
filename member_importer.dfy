/**
  `MemberImporter.run_import`: the spreadsheet rows are reconciled one by one
  against the regions, positions and members already stored. Each row is
  trimmed and validated, its member is found by name or created, the member
  is given the row's position unless it already has it, and the row is
  committed on its own; a failing row is rolled back and reported, and the
  import goes on with the next row.

  The row loop keeps three caches. The region and position caches are built
  once from the stored tables; the member cache maps a name to the member
  object the session handed out, which a rollback may detach from the
  session while the cache keeps it.
 */
module MemberImporter {
  import opened Wrappers
  import opened Entities
  import opened Text
  import opened Storage
  import opened MemberPositionRepository

  /** One spreadsheet row: the cells under 姓名, 地區, 職務 and 電話, as strings. */
  datatype ImportRow = ImportRow(name: string, region: string, position: string, phone: string)

  /** `RowResult(row_index, status, message)`. */
  datatype RowResult = RowResult(rowIndex: int, status: string, message: string)

  /**
    A member object held by the cache: still in the session (`Attached`), or
    thrown out of it by a rollback of the transaction that created it
    (`Detached`), which keeps the id the flush gave it.
   */
  datatype MemberRef = Attached(id: int) | Detached(id: int)

  /** What the importer knows between two rows: the committed database and the member cache. */
  datatype ImportState = ImportState(db: Db, members: map<string, MemberRef>)

  const SuccessStatus := "success"
  const FailureStatus := "failure"
  const SuccessMessage := "匯入成功"
  const RequiredMessage := "姓名、地區、職務為必填欄位。"

  function UnknownRegionMessage(region: string): string
  {
    "地區 '" + region + "' 不存在。"
  }

  function UnknownPositionMessage(position: string): string
  {
    "職務 '" + position + "' 不存在。"
  }

  function Success(index: int): RowResult
  {
    RowResult(index, SuccessStatus, SuccessMessage)
  }

  function Failure(index: int, message: string): RowResult
  {
    RowResult(index, FailureStatus, message)
  }

  /** No later row has row `i`'s name, so its entry is the one a dict comprehension keeps. */
  predicate LastNamed(t: Table, i: int)
    requires 0 <= i < |t|
  {
    forall j :: i < j < |t| ==> t[j].name != t[i].name
  }

  lemma NodeNamesSnoc(init: Table, last: TreeNode)
    ensures (set n | n in init + [last] :: n.name) == (set n | n in init :: n.name) + {last.name}
  {
    assert forall n :: n in init + [last] <==> n in init || n == last;
  }

  /** `NameIndex`'s contract carries over from the rows before the last to all rows. */
  lemma NameIndexStep(init: Table, last: TreeNode, prev: map<string, int>)
    requires prev.Keys == set n | n in init :: n.name
    requires forall i :: 0 <= i < |init| && LastNamed(init, i) ==> prev[init[i].name] == init[i].id
    ensures prev[last.name := last.id].Keys == set n | n in init + [last] :: n.name
    ensures forall i :: 0 <= i < |init + [last]| && LastNamed(init + [last], i) ==> prev[last.name := last.id][(init + [last])[i].name] == (init + [last])[i].id
  {
    var t := init + [last];
    var m := prev[last.name := last.id];
    NodeNamesSnoc(init, last);
    forall i | 0 <= i < |t| && LastNamed(t, i) ensures m[t[i].name] == t[i].id {
      if i < |init| {
        assert init[i] == t[i];
        assert t[|t| - 1] == last;
        assert LastNamed(init, i) by {
          forall j | i < j < |init| ensures init[j].name != init[i].name {
            assert init[j] == t[j];
          }
        }
      }
    }
  }

  /** `{r.name: r.id for r in rows}`: a later row with the same name overwrites an earlier one. */
  function NameIndex(t: Table): (m: map<string, int>)
    ensures m.Keys == set n | n in t :: n.name
    ensures forall i :: 0 <= i < |t| && LastNamed(t, i) ==> m[t[i].name] == t[i].id
  {
    if t == [] then map[]
    else
      assert t == t[..|t| - 1] + [t[|t| - 1]];
      NameIndexStep(t[..|t| - 1], t[|t| - 1], NameIndex(t[..|t| - 1]));
      NameIndex(t[..|t| - 1])[t[|t| - 1].name := t[|t| - 1].id]
  }

  /** The member-list counterpart of `LastNamed`. */
  predicate LastMemberNamed(ms: seq<Member>, i: int)
    requires 0 <= i < |ms|
  {
    forall j :: i < j < |ms| ==> ms[j].name != ms[i].name
  }

  lemma MemberNamesSnoc(init: seq<Member>, last: Member)
    ensures (set x | x in init + [last] :: x.name) == (set x | x in init :: x.name) + {last.name}
  {
    assert forall x :: x in init + [last] <==> x in init || x == last;
  }

  /** `MemberIndex`'s contract carries over from the members before the last to all members. */
  lemma MemberIndexStep(init: seq<Member>, last: Member, prev: map<string, MemberRef>)
    requires prev.Keys == set x | x in init :: x.name
    requires forall i :: 0 <= i < |init| && LastMemberNamed(init, i) ==> prev[init[i].name] == Attached(init[i].id)
    ensures prev[last.name := Attached(last.id)].Keys == set x | x in init + [last] :: x.name
    ensures forall i :: 0 <= i < |init + [last]| && LastMemberNamed(init + [last], i) ==>
      prev[last.name := Attached(last.id)][(init + [last])[i].name] == Attached((init + [last])[i].id)
  {
    var ms := init + [last];
    var m := prev[last.name := Attached(last.id)];
    MemberNamesSnoc(init, last);
    forall i | 0 <= i < |ms| && LastMemberNamed(ms, i) ensures m[ms[i].name] == Attached(ms[i].id) {
      if i < |init| {
        assert init[i] == ms[i];
        assert ms[|ms| - 1] == last;
        assert LastMemberNamed(init, i) by {
          forall j | i < j < |init| ensures init[j].name != init[i].name {
            assert init[j] == ms[j];
          }
        }
      }
    }
  }

  /** `{m.name: m for m in members}`: every member object is still in the session; a later namesake overwrites an earlier one. */
  function MemberIndex(ms: seq<Member>): (m: map<string, MemberRef>)
    ensures m.Keys == set x | x in ms :: x.name
    ensures forall i :: 0 <= i < |ms| && LastMemberNamed(ms, i) ==> m[ms[i].name] == Attached(ms[i].id)
  {
    if ms == [] then map[]
    else
      assert ms == ms[..|ms| - 1] + [ms[|ms| - 1]];
      MemberIndexStep(ms[..|ms| - 1], ms[|ms| - 1], MemberIndex(ms[..|ms| - 1]));
      MemberIndex(ms[..|ms| - 1])[ms[|ms| - 1].name := Attached(ms[|ms| - 1].id)]
  }

  /** The four cells after `str(...).strip()`. */
  function Trimmed(row: ImportRow): ImportRow
  {
    ImportRow(Strip(row.name), Strip(row.region), Strip(row.position), Strip(row.phone))
  }

  /** The outcome of the row's checks: the message of the first one that fails, or the two ids looked up. */
  datatype Check = Rejected(message: string) | Accepted(regionId: int, positionId: int)

  /** The required cells first, then the region, then the position. */
  function CheckRow(f: ImportRow, regions: map<string, int>, positions: map<string, int>): Check
  {
    if f.name == "" || f.region == "" || f.position == "" then Rejected(RequiredMessage)
    else if f.region !in regions then Rejected(UnknownRegionMessage(f.region))
    else if f.position !in positions then Rejected(UnknownPositionMessage(f.position))
    else Accepted(regions[f.region], positions[f.position])
  }

  /** An existing member object written by the row: a non-empty phone replaces the old one, the region always does. */
  function UpdateMember(ms: seq<Member>, id: int, phone: string, regionId: int): (r: seq<Member>)
    ensures |r| == |ms|
    ensures forall i :: 0 <= i < |ms| ==> (r[i] ==
      if ms[i].id == id
      then ms[i].(phoneNumber := if phone != "" then Some(phone) else ms[i].phoneNumber, regionId := Some(regionId))
      else ms[i])
  {
    seq(|ms|, i requires 0 <= i < |ms| =>
      if ms[i].id == id
      then ms[i].(phoneNumber := if phone != "" then Some(phone) else ms[i].phoneNumber, regionId := Some(regionId))
      else ms[i])
  }

  /** `Member(name=..., phone_number=phone, region_id=...)` as the flush inserts it: next rowid, schedulable by default. */
  function ImportedMember(ms: seq<Member>, name: string, phone: string, regionId: int): Member
  {
    Member(NextId(MemberIds(ms)), name, Some(phone), 1, Some(regionId))
  }

  /** The new assignment row, added only when the member does not hold the position yet. */
  function Assigned(a: seq<Assignment>, memberId: int, positionId: int): seq<Assignment>
  {
    if FindByMemberAndPosition(a, memberId, positionId).None?
    then a + [Assignment(memberId, positionId, !HasPrimaryPosition(a, memberId))]
    else a
  }

  /**
    The member step of a row: the pending state with the member written or
    inserted, the cache after it, the member's id and whether this row
    created it; or the error the flush of a new member raised.
   */
  datatype Upsert =
    | FlushFailed(error: CommitError)
    | Upserted(working: Db, members: map<string, MemberRef>, memberId: int, created: bool)

  function UpsertMember(s: ImportState, f: ImportRow, regionId: int): Upsert
  {
    if f.name in s.members then
      var ref := s.members[f.name];
      var w := if ref.Attached? then s.db.(members := UpdateMember(s.db.members, ref.id, f.phone, regionId)) else s.db;
      Upserted(w, s.members, ref.id, false)
    else
      var m := ImportedMember(s.db.members, f.name, f.phone, regionId);
      var w := s.db.(members := s.db.members + [m]);
      match Violated(w)
      case Some(v) => FlushFailed(IntegrityError(v))
      case None => Upserted(w, s.members[f.name := Attached(m.id)], m.id, true)
  }

  /**
    One pass of the row loop: the state after row `index` and the result it
    yields. `fault` is the storage failure, if any, that the commit meets
    besides the schema's constraints.
   */
  function RowStep(s: ImportState, regions: map<string, int>, positions: map<string, int>,
                   index: int, row: ImportRow, fault: Option<string>): (ImportState, RowResult)
  {
    var f := Trimmed(row);
    match CheckRow(f, regions, positions)
    case Rejected(message) => (s, Failure(index, message))
    case Accepted(regionId, positionId) =>
      match UpsertMember(s, f, regionId)
      case FlushFailed(e) => (s, Failure(index, ErrorText(e)))
      case Upserted(w, members, id, created) =>
        var after := w.(assignments := Assigned(w.assignments, id, positionId));
        match WriteOutcome(after, fault)
        case None => (ImportState(after, members), Success(index))
        case Some(e) =>
          (ImportState(s.db, if created then members[f.name := Detached(id)] else members), Failure(index, ErrorText(e)))
  }

  /** The loop over the rows with a given row step: row `i` carries index `i` and meets storage failure `faults[i]`. */
  function Steps(step: (ImportState, int, ImportRow, Option<string>) -> (ImportState, RowResult),
                 s: ImportState, rows: seq<ImportRow>, faults: seq<Option<string>>): (r: (ImportState, seq<RowResult>))
    requires |faults| == |rows|
    ensures |r.1| == |rows|
  {
    if rows == [] then (s, [])
    else
      var n := |rows| - 1;
      var prev := Steps(step, s, rows[..n], faults[..n]);
      var last := step(prev.0, n, rows[n], faults[n]);
      (last.0, prev.1 + [last.1])
  }

  /** The whole run: every row in order, against the caches built before the loop. */
  function ImportAll(s: ImportState, regions: map<string, int>, positions: map<string, int>,
                     rows: seq<ImportRow>, faults: seq<Option<string>>): (ImportState, seq<RowResult>)
    requires |faults| == |rows|
  {
    Steps((t, i, row, fault) => RowStep(t, regions, positions, i, row, fault), s, rows, faults)
  }

  // ----- invariants of the importer's state -----

  /** The database keeps its constraints and every attached cache entry is a stored member. */
  predicate CacheValid(s: ImportState)
  {
    Consistent(s.db)
    && forall n :: n in s.members && s.members[n].Attached? ==> s.members[n].id in MemberIds(s.db.members)
  }

  /** No member has two primary positions. */
  ghost predicate AtMostOnePrimaryEach(a: seq<Assignment>)
  {
    forall m :: PrimaryCount(a, m) <= 1
  }

  /** Every member holding some position has a primary one. */
  predicate PrimaryWhenAssigned(a: seq<Assignment>)
  {
    forall x :: x in a ==> HasPrimaryPosition(a, x.memberId)
  }

  /**
    Writing the row's member breaks the phone constraint: a new member's
    phone (possibly "") or an attached member's non-empty phone is already
    another member's. A detached member is never written.
   */
  predicate PhoneClash(s: ImportState, name: string, phone: string)
  {
    if name in s.members then
      s.members[name].Attached? && phone != ""
      && exists m :: m in s.db.members && m.id != s.members[name].id && m.phoneNumber == Some(phone)
    else exists m :: m in s.db.members && m.phoneNumber == Some(phone)
  }

  // ----- lemmas -----

  /** The member cache built at the start of a run holds only attached, stored members. */
  lemma {:induction false} MemberIndexStored(ms: seq<Member>)
    ensures forall k :: k in MemberIndex(ms) ==> MemberIndex(ms)[k].Attached? && MemberIndex(ms)[k].id in MemberIds(ms)
  {
    if ms != [] {
      var init := ms[..|ms| - 1];
      MemberIndexStored(init);
      forall k | k in MemberIndex(ms) ensures MemberIndex(ms)[k].Attached? && MemberIndex(ms)[k].id in MemberIds(ms) {
        if k == ms[|ms| - 1].name {
          assert MemberIds(ms)[|ms| - 1] == ms[|ms| - 1].id;
        } else {
          var j :| 0 <= j < |init| && MemberIds(init)[j] == MemberIndex(init)[k].id;
          assert MemberIds(ms)[j] == MemberIds(init)[j];
        }
      }
    }
  }

  /**
    A row with an empty name, region or position fails with the required
    message; otherwise an unknown region fails with a message naming it,
    whatever the position; otherwise an unknown position does. Each of these
    leaves the database and the cache as they were.
   */
  lemma RejectedRows(s: ImportState, regions: map<string, int>, positions: map<string, int>,
                     index: int, row: ImportRow, fault: Option<string>)
    ensures var f := Trimmed(row);
      var (s', r) := RowStep(s, regions, positions, index, row, fault);
      && (f.name == "" || f.region == "" || f.position == "" ==>
            s' == s && r == RowResult(index, FailureStatus, RequiredMessage))
      && (f.name != "" && f.region != "" && f.position != "" && f.region !in regions ==>
            s' == s && r.status == FailureStatus && Contains(r.message, f.region) && r.message != RequiredMessage)
      && (f.name != "" && f.region != "" && f.position != "" && f.region in regions && f.position !in positions ==>
            s' == s && r.status == FailureStatus && Contains(r.message, f.position) && r.message != RequiredMessage)
  {
    var f := Trimmed(row);
    var rm, pm := UnknownRegionMessage(f.region), UnknownPositionMessage(f.position);
    assert rm[|"地區 '"|..|"地區 '"| + |f.region|] == f.region;
    assert OccursAt(rm, f.region, |"地區 '"|);
    assert pm[|"職務 '"|..|"職務 '"| + |f.position|] == f.position;
    assert OccursAt(pm, f.position, |"職務 '"|);
    assert rm[0] != RequiredMessage[0] && pm[0] != RequiredMessage[0];
  }

  /** `UniqueKeys` survives adding an assignment only when its key is absent. */
  lemma AssignedKeepsKeys(a: seq<Assignment>, memberId: int, positionId: int)
    requires UniqueKeys(a)
    ensures UniqueKeys(Assigned(a, memberId, positionId))
  {
    var r := Assigned(a, memberId, positionId);
    if FindByMemberAndPosition(a, memberId, positionId).None? {
      forall i, j | 0 <= i < j < |r| ensures r[i].memberId != r[j].memberId || r[i].positionId != r[j].positionId {
        if j == |a| { assert r[i] == a[i] && a[i] in a; }
        else { assert r[i] == a[i] && r[j] == a[j]; }
      }
    }
  }

  /** Writing an attached member keeps ids unique and breaks the phone constraint exactly on a clash with another member. */
  lemma UpdateMemberPhones(ms: seq<Member>, id: int, phone: string, regionId: int)
    requires UniqueMemberIds(ms) && UniquePhones(ms) && id in MemberIds(ms)
    ensures UniqueMemberIds(UpdateMember(ms, id, phone, regionId))
    ensures UniquePhones(UpdateMember(ms, id, phone, regionId)) <==>
      !(phone != "" && exists m :: m in ms && m.id != id && m.phoneNumber == Some(phone))
  {
    var r := UpdateMember(ms, id, phone, regionId);
    var k :| 0 <= k < |ms| && MemberIds(ms)[k] == id;
    assert ms[k].id == id;
    assert forall i :: 0 <= i < |ms| ==> r[i].id == ms[i].id;
    if phone != "" && exists m :: m in ms && m.id != id && m.phoneNumber == Some(phone) {
      var m :| m in ms && m.id != id && m.phoneNumber == Some(phone);
      var j :| 0 <= j < |ms| && ms[j] == m;
      assert r[j] == m && r[k].phoneNumber == Some(phone) && j != k;
      if j < k { assert !UniquePhones(r); } else { assert r[k].phoneNumber == r[j].phoneNumber; }
    } else {
      forall i, j | 0 <= i < j < |r| && r[i].phoneNumber.Some? ensures r[i].phoneNumber != r[j].phoneNumber {
        if ms[i].id == id {
          assert ms[j].id != id && ms[j] in ms;
        } else if ms[j].id == id {
          assert ms[i] in ms;
        }
      }
    }
  }

  /** Appending a member with a fresh id breaks the phone constraint exactly when its phone is taken. */
  lemma AppendMemberPhones(ms: seq<Member>, m: Member)
    requires UniqueMemberIds(ms) && UniquePhones(ms) && m.phoneNumber.Some?
    requires forall x :: x in ms ==> x.id != m.id
    ensures UniqueMemberIds(ms + [m])
    ensures UniquePhones(ms + [m]) <==> !exists x :: x in ms && x.phoneNumber == m.phoneNumber
  {
    var r := ms + [m];
    forall i, j | 0 <= i < j < |r| ensures r[i].id != r[j].id {
      if j == |ms| { assert r[i] == ms[i] && ms[i] in ms; }
    }
    if exists x :: x in ms && x.phoneNumber == m.phoneNumber {
      var x :| x in ms && x.phoneNumber == m.phoneNumber;
      var j :| 0 <= j < |ms| && ms[j] == x;
      assert r[j].phoneNumber == r[|ms|].phoneNumber;
    } else {
      forall i, j | 0 <= i < j < |r| && r[i].phoneNumber.Some? ensures r[i].phoneNumber != r[j].phoneNumber {
        if j == |ms| { assert r[i] == ms[i] && ms[i] in ms; }
      }
    }
  }

  /** The id a new member gets is used by no stored member. */
  lemma ImportedMemberIsFresh(ms: seq<Member>, name: string, phone: string, regionId: int)
    ensures forall x :: x in ms ==> x.id != ImportedMember(ms, name, phone, regionId).id
    ensures ImportedMember(ms, name, phone, regionId).id !in MemberIds(ms)
  {
    var ids := MemberIds(ms);
    forall x | x in ms ensures x.id != ImportedMember(ms, name, phone, regionId).id {
      var i :| 0 <= i < |ms| && ms[i] == x;
      assert ids[i] == x.id;
    }
  }

  /**
    On a valid state, a row that passes its checks commits exactly when
    writing its member clashes with no other member's phone and storage does
    not fail; every other row fails.
   */
  lemma RowSucceedsIff(s: ImportState, regions: map<string, int>, positions: map<string, int>,
                       index: int, row: ImportRow, fault: Option<string>)
    requires CacheValid(s)
    ensures var f := Trimmed(row);
      var (s', r) := RowStep(s, regions, positions, index, row, fault);
      r.status == SuccessStatus <==>
        CheckRow(f, regions, positions).Accepted? && !PhoneClash(s, f.name, f.phone) && fault.None?
  {
    hide ErrorText;
    var f := Trimmed(row);
    match CheckRow(f, regions, positions)
    case Rejected(_) =>
    case Accepted(regionId, positionId) =>
      AcceptedRowSucceedsIff(s, f, regionId, positionId, fault);
  }

  lemma AcceptedRowSucceedsIff(s: ImportState, f: ImportRow, regionId: int, positionId: int, fault: Option<string>)
    requires CacheValid(s)
    ensures match UpsertMember(s, f, regionId)
      case FlushFailed(_) => PhoneClash(s, f.name, f.phone)
      case Upserted(w, _, id, _) =>
        (WriteOutcome(w.(assignments := Assigned(w.assignments, id, positionId)), fault).None? <==>
           !PhoneClash(s, f.name, f.phone) && fault.None?)
  {
    hide ErrorText;
    var db := s.db;
    if f.name in s.members {
      var ref := s.members[f.name];
      var w := if ref.Attached? then db.(members := UpdateMember(db.members, ref.id, f.phone, regionId)) else db;
      if ref.Attached? {
        UpdateMemberPhones(db.members, ref.id, f.phone, regionId);
      }
      AssignedKeepsKeys(w.assignments, ref.id, positionId);
    } else {
      var m := ImportedMember(db.members, f.name, f.phone, regionId);
      ImportedMemberIsFresh(db.members, f.name, f.phone, regionId);
      AppendMemberPhones(db.members, m);
      var w := db.(members := db.members + [m]);
      if Violated(w).None? {
        AssignedKeepsKeys(w.assignments, m.id, positionId);
      }
    }
  }

  /** A row that does not commit leaves the database as it was; a row that commits leaves it consistent. */
  lemma RowOutcome(s: ImportState, regions: map<string, int>, positions: map<string, int>,
                   index: int, row: ImportRow, fault: Option<string>)
    ensures var (s', r) := RowStep(s, regions, positions, index, row, fault);
      && r.rowIndex == index
      && (r.status == SuccessStatus || r.status == FailureStatus)
      && (r.status == FailureStatus ==> s'.db == s.db)
      && (r.status == SuccessStatus ==> Consistent(s'.db) && r.message == SuccessMessage)
  {
    hide ErrorText;
    assert SuccessStatus[0] != FailureStatus[0];
    var f := Trimmed(row);
    match CheckRow(f, regions, positions)
    case Rejected(_) =>
    case Accepted(regionId, positionId) =>
      match UpsertMember(s, f, regionId)
      case FlushFailed(_) =>
      case Upserted(w, members, id, created) =>
  }

  /** The row's member after a committed row: the cache maps its name to it, attached or not. */
  function RowMember(s: ImportState, f: ImportRow): int
  {
    if f.name in s.members then s.members[f.name].id
    else NextId(MemberIds(s.db.members))
  }

  /**
    After a committed row, the member of the row holds the row's position,
    and a new assignment was added exactly when it did not hold it before;
    that assignment is primary exactly when the member had no primary
    position. Nothing else changes in `member_positions`.
   */
  lemma CommittedAssignment(s: ImportState, regions: map<string, int>, positions: map<string, int>,
                            index: int, row: ImportRow, fault: Option<string>)
    ensures var f := Trimmed(row);
      var (s', r) := RowStep(s, regions, positions, index, row, fault);
      r.status == SuccessStatus ==>
        var id := RowMember(s, f);
        var p := positions[f.position];
        && f.name in s'.members && s'.members[f.name].id == id
        && s'.db.assignments == s.db.assignments +
             (if exists x :: x in s.db.assignments && x.memberId == id && x.positionId == p then []
              else [Assignment(id, p, !exists x :: x in s.db.assignments && x.memberId == id && x.isPrimary)])
  {
    var f := Trimmed(row);
    var (s', r) := RowStep(s, regions, positions, index, row, fault);
    if r.status == SuccessStatus {
      var id := RowMember(s, f);
      HasPrimaryIffPrimaryRow(s.db.assignments, id);
    }
  }

  /**
    A row naming a cached, attached member overwrites its region and, when
    the row's phone is not empty, its phone; every other column and every
    other member stays.
   */
  lemma CommittedExistingMember(s: ImportState, regions: map<string, int>, positions: map<string, int>,
                                index: int, row: ImportRow, fault: Option<string>)
    requires var f := Trimmed(row); f.name in s.members && s.members[f.name].Attached?
    ensures var f := Trimmed(row);
      var (s', r) := RowStep(s, regions, positions, index, row, fault);
      r.status == SuccessStatus ==>
        var id := s.members[f.name].id;
        && s'.members == s.members
        && |s'.db.members| == |s.db.members|
        && (forall i :: 0 <= i < |s.db.members| && s.db.members[i].id != id ==> s'.db.members[i] == s.db.members[i])
        && forall i :: 0 <= i < |s.db.members| && s.db.members[i].id == id ==>
             && s'.db.members[i].id == id
             && s'.db.members[i].name == s.db.members[i].name
             && s'.db.members[i].isSchedulable == s.db.members[i].isSchedulable
             && s'.db.members[i].regionId == Some(regions[f.region])
             && s'.db.members[i].phoneNumber == (if f.phone == "" then s.db.members[i].phoneNumber else Some(f.phone))
  {
    hide ErrorText;
  }

  /**
    A row naming no cached member inserts one, with a fresh id, the row's
    name, phone (even "") and region, schedulable; the cache maps the name
    to it, so later rows with that name reuse it.
   */
  lemma CommittedNewMember(s: ImportState, regions: map<string, int>, positions: map<string, int>,
                           index: int, row: ImportRow, fault: Option<string>)
    requires Trimmed(row).name !in s.members
    ensures var f := Trimmed(row);
      var (s', r) := RowStep(s, regions, positions, index, row, fault);
      r.status == SuccessStatus ==>
        exists id ::
          && (forall x :: x in s.db.members ==> x.id != id)
          && s'.db.members == s.db.members + [Member(id, f.name, Some(f.phone), 1, Some(regions[f.region]))]
          && s'.members == s.members[f.name := Attached(id)]
  {
    hide ErrorText;
    var f := Trimmed(row);
    if f.region in regions {
      ImportedMemberIsFresh(s.db.members, f.name, f.phone, regions[f.region]);
    }
  }

  /**
    A new member whose flush succeeded but whose commit failed stays in the
    cache, detached, with an id no stored member has, the same id the next
    inserted member will receive; a later row with that name writes
    assignments for that id.
   */
  lemma FailedCommitLeavesStaleMember(s: ImportState, regions: map<string, int>, positions: map<string, int>,
                                      index: int, row: ImportRow, fault: Option<string>)
    requires CacheValid(s)
    requires var f := Trimmed(row);
      f.name !in s.members && CheckRow(f, regions, positions).Accepted? && !PhoneClash(s, f.name, f.phone) && fault.Some?
    ensures var f := Trimmed(row);
      var (s', r) := RowStep(s, regions, positions, index, row, fault);
      && r.status == FailureStatus && s'.db == s.db
      && f.name in s'.members && s'.members[f.name].Detached?
      && (forall x :: x in s'.db.members ==> x.id != s'.members[f.name].id)
      && forall name, phone, regionId :: ImportedMember(s'.db.members, name, phone, regionId).id == s'.members[f.name].id
  {
    hide ErrorText;
    RowSucceedsIff(s, regions, positions, index, row, fault);
    var f := Trimmed(row);
    if f.region in regions {
      ImportedMemberIsFresh(s.db.members, f.name, f.phone, regions[f.region]);
    }
  }

  /** Adding an assignment that is primary only for a member without one keeps both primary invariants. */
  lemma AssignedKeepsPrimaries(a: seq<Assignment>, memberId: int, positionId: int)
    ensures AtMostOnePrimaryEach(a) ==> AtMostOnePrimaryEach(Assigned(a, memberId, positionId))
    ensures PrimaryWhenAssigned(a) ==> PrimaryWhenAssigned(Assigned(a, memberId, positionId))
  {
    if FindByMemberAndPosition(a, memberId, positionId).None? {
      var x := Assignment(memberId, positionId, !HasPrimaryPosition(a, memberId));
      var r := a + [x];
      assert PrimaryCount([x][1..], memberId) == 0;
      forall m ensures PrimaryCount(r, m) == PrimaryCount(a, m) + (if m == memberId && x.isPrimary then 1 else 0) {
        PrimaryCountAppend(a, [x], m);
        assert [x][1..] == [];
      }
      if PrimaryWhenAssigned(a) {
        forall y | y in r ensures HasPrimaryPosition(r, y.memberId) {
          if y != x { assert y in a; }
        }
      }
    }
  }

  /** An import never gives a member a second primary position, nor leaves an assigned member without one. */
  lemma RowKeepsPrimaries(s: ImportState, regions: map<string, int>, positions: map<string, int>,
                          index: int, row: ImportRow, fault: Option<string>)
    ensures var (s', r) := RowStep(s, regions, positions, index, row, fault);
      && (AtMostOnePrimaryEach(s.db.assignments) ==> AtMostOnePrimaryEach(s'.db.assignments))
      && (PrimaryWhenAssigned(s.db.assignments) ==> PrimaryWhenAssigned(s'.db.assignments))
  {
    hide ErrorText;
    var f := Trimmed(row);
    match CheckRow(f, regions, positions)
    case Rejected(_) =>
    case Accepted(regionId, positionId) =>
      match UpsertMember(s, f, regionId)
      case FlushFailed(_) =>
      case Upserted(w, _, id, _) =>
        assert w.assignments == s.db.assignments;
        AssignedKeepsPrimaries(w.assignments, id, positionId);
  }

  /** A member table that keeps every row's id and only grows keeps every stored id. */
  lemma MemberIdsKept(ms: seq<Member>, ms': seq<Member>)
    requires |ms| <= |ms'| && forall i :: 0 <= i < |ms| ==> ms'[i].id == ms[i].id
    ensures forall id :: id in MemberIds(ms) ==> id in MemberIds(ms')
  {
    forall id | id in MemberIds(ms) ensures id in MemberIds(ms') {
      var k :| 0 <= k < |ms| && MemberIds(ms)[k] == id;
      assert MemberIds(ms')[k] == id;
    }
  }

  /** Writing the row's member keeps every stored member's id in place, and a created member is the new last row. */
  lemma UpsertKeepsIds(s: ImportState, f: ImportRow, regionId: int)
    ensures UpsertMember(s, f, regionId).Upserted? ==>
      var u := UpsertMember(s, f, regionId);
      && |s.db.members| <= |u.working.members|
      && (forall i :: 0 <= i < |s.db.members| ==> u.working.members[i].id == s.db.members[i].id)
      && (u.created ==> |u.working.members| == |s.db.members| + 1 && u.working.members[|s.db.members|].id == u.memberId
                        && u.members == s.members[f.name := Attached(u.memberId)])
      && (!u.created ==> u.members == s.members)
  {
  }

  /** Every row keeps the database consistent and every attached cache entry stored. */
  lemma RowKeepsCacheValid(s: ImportState, regions: map<string, int>, positions: map<string, int>,
                           index: int, row: ImportRow, fault: Option<string>)
    requires CacheValid(s)
    ensures CacheValid(RowStep(s, regions, positions, index, row, fault).0)
  {
    hide ErrorText;
    var f := Trimmed(row);
    match CheckRow(f, regions, positions)
    case Rejected(_) =>
    case Accepted(regionId, positionId) =>
      match UpsertMember(s, f, regionId)
      case FlushFailed(_) =>
      case Upserted(w, members, id, created) =>
        var after := w.(assignments := Assigned(w.assignments, id, positionId));
        if WriteOutcome(after, fault).None? {
          UpsertKeepsIds(s, f, regionId);
          MemberIdsKept(s.db.members, after.members);
          if created {
            assert MemberIds(after.members)[|s.db.members|] == id;
          }
        }
  }

  /** The run yields exactly one result per row, in row order. */
  lemma {:induction false} ImportAllResults(s: ImportState, regions: map<string, int>, positions: map<string, int>,
                                            rows: seq<ImportRow>, faults: seq<Option<string>>)
    requires |faults| == |rows|
    ensures |ImportAll(s, regions, positions, rows, faults).1| == |rows|
    ensures forall i :: 0 <= i < |rows| ==> ImportAll(s, regions, positions, rows, faults).1[i].rowIndex == i
  {
    hide ErrorText;
    if rows != [] {
      var n := |rows| - 1;
      ImportAllResults(s, regions, positions, rows[..n], faults[..n]);
      var (before, results) := ImportAll(s, regions, positions, rows[..n], faults[..n]);
      RowOutcome(before, regions, positions, n, rows[n], faults[n]);
    }
  }

  /**
    Over a whole run the database stays consistent, attached cache entries
    stay stored, and no member ever holds two primary positions.
   */
  lemma {:induction false} ImportAllKeepsInvariants(s: ImportState, regions: map<string, int>, positions: map<string, int>,
                                                    rows: seq<ImportRow>, faults: seq<Option<string>>)
    requires |faults| == |rows|
    ensures var s' := ImportAll(s, regions, positions, rows, faults).0;
      && (CacheValid(s) ==> CacheValid(s'))
      && (AtMostOnePrimaryEach(s.db.assignments) ==> AtMostOnePrimaryEach(s'.db.assignments))
      && (PrimaryWhenAssigned(s.db.assignments) ==> PrimaryWhenAssigned(s'.db.assignments))
  {
    hide ErrorText;
    if rows != [] {
      var n := |rows| - 1;
      ImportAllKeepsInvariants(s, regions, positions, rows[..n], faults[..n]);
      var before := ImportAll(s, regions, positions, rows[..n], faults[..n]).0;
      RowKeepsPrimaries(before, regions, positions, n, rows[n], faults[n]);
      if CacheValid(s) {
        RowKeepsCacheValid(before, regions, positions, n, rows[n], faults[n]);
      }
    }
  }

  /** The results of a prefix of the rows are the prefix of the results: a row's outcome does not depend on later rows. */
  lemma {:induction false} StepsPrefix(step: (ImportState, int, ImportRow, Option<string>) -> (ImportState, RowResult),
                                       s: ImportState, rows: seq<ImportRow>, faults: seq<Option<string>>, k: nat)
    requires |faults| == |rows| && k <= |rows|
    ensures Steps(step, s, rows[..k], faults[..k]).1 == Steps(step, s, rows, faults).1[..k]
    decreases |rows|
  {
    if k < |rows| {
      var n := |rows| - 1;
      assert rows[..n][..k] == rows[..k] && faults[..n][..k] == faults[..k];
      StepsPrefix(step, s, rows[..n], faults[..n], k);
      var results := Steps(step, s, rows[..n], faults[..n]).1;
      var all := Steps(step, s, rows, faults).1;
      assert all[..n] == results;
      assert all[..k] == results[..k];
    } else {
      assert rows[..k] == rows && faults[..k] == faults;
    }
  }

  /** Row `i`'s step starts from the state the rows before it left, and its result is the `i`-th. */
  lemma StepsRow(step: (ImportState, int, ImportRow, Option<string>) -> (ImportState, RowResult),
                 s: ImportState, rows: seq<ImportRow>, faults: seq<Option<string>>, i: nat)
    requires |faults| == |rows| && i < |rows|
    ensures var before := Steps(step, s, rows[..i], faults[..i]).0;
      var after := Steps(step, s, rows[..i + 1], faults[..i + 1]).0;
      (after, Steps(step, s, rows, faults).1[i]) == step(before, i, rows[i], faults[i])
  {
    StepsPrefix(step, s, rows, faults, i + 1);
    assert rows[..i + 1][..i] == rows[..i] && faults[..i + 1][..i] == faults[..i];
    assert rows[..i + 1][i] == rows[i] && faults[..i + 1][i] == faults[i];
  }

  /** The run over the first `k` rows yields the first `k` results of the whole run. */
  lemma ImportAllPrefix(s: ImportState, regions: map<string, int>, positions: map<string, int>,
                        rows: seq<ImportRow>, faults: seq<Option<string>>, k: nat)
    requires |faults| == |rows| && k <= |rows|
    ensures ImportAll(s, regions, positions, rows[..k], faults[..k]).1 == ImportAll(s, regions, positions, rows, faults).1[..k]
  {
    StepsPrefix((t, j, row, fault) => RowStep(t, regions, positions, j, row, fault), s, rows, faults, k);
  }

  /** One more row: the run over `i + 1` rows is the run over `i` rows followed by row `i`'s step. */
  lemma ImportAllNext(s: ImportState, regions: map<string, int>, positions: map<string, int>,
                      rows: seq<ImportRow>, faults: seq<Option<string>>, i: nat)
    requires |faults| == |rows| && i < |rows|
    ensures var prev := ImportAll(s, regions, positions, rows[..i], faults[..i]);
      var last := RowStep(prev.0, regions, positions, i, rows[i], faults[i]);
      ImportAll(s, regions, positions, rows[..i + 1], faults[..i + 1]) == (last.0, prev.1 + [last.1])
  {
    assert rows[..i + 1][..i] == rows[..i] && faults[..i + 1][..i] == faults[..i];
    assert rows[..i + 1][i] == rows[i] && faults[..i + 1][i] == faults[i];
  }

  /**
    Row `i` sees the state the earlier rows left: a failed row leaves the
    database as the rows before it committed it, and a successful row's
    changes are committed on top of it.
   */
  lemma RowSeesEarlierCommits(s: ImportState, regions: map<string, int>, positions: map<string, int>,
                              rows: seq<ImportRow>, faults: seq<Option<string>>, i: nat)
    requires |faults| == |rows| && i < |rows|
    ensures var before := ImportAll(s, regions, positions, rows[..i], faults[..i]).0;
      var after := ImportAll(s, regions, positions, rows[..i + 1], faults[..i + 1]).0;
      var r := ImportAll(s, regions, positions, rows, faults).1[i];
      && (after, r) == RowStep(before, regions, positions, i, rows[i], faults[i])
      && (r.status == FailureStatus ==> after.db == before.db)
  {
    hide ErrorText;
    var step := (t, j, row, fault) => RowStep(t, regions, positions, j, row, fault);
    StepsRow(step, s, rows, faults, i);
    var before := ImportAll(s, regions, positions, rows[..i], faults[..i]).0;
    RowOutcome(before, regions, positions, i, rows[i], faults[i]);
  }

  /**
    The generator's frame: the session opened for the run and the three
    caches built before the loop. The region and position caches are
    constants.
   */
  class ImportRun {
    const session: Session
    const existingRegions: map<string, int>
    const existingPositions: map<string, int>
    var existingMembers: map<string, MemberRef>

    /** A new session on the database, and the caches built from what it sees. */
    constructor (db: Database)
      requires db.Valid()
      ensures fresh(session) && session.db == db && session.working == db.state
      ensures existingRegions == NameIndex(db.state.regions) && existingPositions == NameIndex(db.state.positions)
      ensures existingMembers == MemberIndex(db.state.members)
      ensures CacheValid(ImportState(db.state, existingMembers))
    {
      session := new Session(db);
      existingRegions := NameIndex(db.state.regions);
      existingPositions := NameIndex(db.state.positions);
      existingMembers := MemberIndex(db.state.members);
      MemberIndexStored(db.state.members);
    }

    /** The state the importer carries from row to row. */
    ghost function State(): ImportState
      reads this, session, session.db
    {
      ImportState(session.db.state, existingMembers)
    }

    /**
      The member step of a row: a cached member object is written (which
      changes nothing stored when it is detached); an unknown name gets a new
      member, flushed at once and cached under its name, unless the flush
      raises, in which case the session is rolled back.
     */
    method UpsertRow(f: ImportRow, regionId: int) returns (u: Upsert)
      requires session.working == session.db.state
      modifies this, session
      ensures u == UpsertMember(old(State()), f, regionId)
      ensures u.FlushFailed? ==> session.working == session.db.state && existingMembers == old(existingMembers)
      ensures u.Upserted? ==> session.working == u.working && existingMembers == u.members
    {
      if f.name in existingMembers {
        var member := existingMembers[f.name];
        if member.Attached? {
          session.working := session.working.(members := UpdateMember(session.working.members, member.id, f.phone, regionId));
        }
        u := Upserted(session.working, existingMembers, member.id, false);
      } else {
        var member := ImportedMember(session.working.members, f.name, f.phone, regionId);
        session.working := session.working.(members := session.working.members + [member]);
        var e := session.Flush();
        if e.Some? {
          session.Rollback();
          return FlushFailed(e.value);
        }
        existingMembers := existingMembers[f.name := Attached(member.id)];
        u := Upserted(session.working, existingMembers, member.id, true);
      }
    }

    /**
      One pass of the loop body, from trimming the cells to the commit or
      rollback, yielding the row's result.
     */
    method ProcessRow(index: int, row: ImportRow, fault: Option<string>) returns (result: RowResult)
      requires session.db.Valid() && session.working == session.db.state
      modifies this, session, session.db
      ensures session.db.Valid() && session.working == session.db.state
      ensures (State(), result) == RowStep(old(State()), existingRegions, existingPositions, index, row, fault)
    {
      hide ErrorText;
      var name := Strip(row.name);
      var regionName := Strip(row.region);
      var positionName := Strip(row.position);
      var phone := Strip(row.phone);
      if name == "" || regionName == "" || positionName == "" {
        return Failure(index, RequiredMessage);
      }
      if regionName !in existingRegions {
        return Failure(index, UnknownRegionMessage(regionName));
      }
      var regionId := existingRegions[regionName];
      if positionName !in existingPositions {
        return Failure(index, UnknownPositionMessage(positionName));
      }
      var positionId := existingPositions[positionName];

      var u := UpsertRow(ImportRow(name, regionName, positionName, phone), regionId);
      if u.FlushFailed? {
        return Failure(index, ErrorText(u.error));
      }
      var memberId := u.memberId;

      var existingAssignment := FindByMemberAndPosition(session.working.assignments, memberId, positionId);
      if existingAssignment.None? {
        var hasPrimary := HasPrimaryPosition(session.working.assignments, memberId);
        session.working := session.working.(assignments :=
          session.working.assignments + [Assignment(memberId, positionId, !hasPrimary)]);
      }
      var e := session.Commit(fault);
      if e.None? {
        result := Success(index);
      } else {
        session.Rollback();
        if u.created {
          existingMembers := existingMembers[name := Detached(memberId)];
        }
        result := Failure(index, ErrorText(e.value));
      }
    }

    /** Resuming the generator at row `i`: the run so far, extended by that row. */
    method Next(ghost start: ImportState, rows: seq<ImportRow>, faults: seq<Option<string>>, i: nat) returns (result: RowResult)
      requires |faults| == |rows| && i < |rows|
      requires session.db.Valid() && session.working == session.db.state
      requires State() == ImportAll(start, existingRegions, existingPositions, rows[..i], faults[..i]).0
      modifies this, session, session.db
      ensures session.db.Valid() && session.working == session.db.state
      ensures State() == ImportAll(start, existingRegions, existingPositions, rows[..i + 1], faults[..i + 1]).0
      ensures ImportAll(start, existingRegions, existingPositions, rows[..i + 1], faults[..i + 1]).1
        == ImportAll(start, existingRegions, existingPositions, rows[..i], faults[..i]).1 + [result]
    {
      ImportAllNext(start, existingRegions, existingPositions, rows, faults, i);
      result := ProcessRow(i, rows[i], faults[i]);
    }
  }
}
