/**
  The database and the SQLAlchemy session over it, reduced to what the core
  relies on: a committed state, a session's working copy of it, `commit`
  (which checks the schema's uniqueness constraints and may also fail for a
  reason outside the model) and `rollback` (which throws the working copy
  away).
 */
module Storage {
  import opened Wrappers
  import opened Entities
  import opened Text

  /** The four tables the core touches, each in rowid order. */
  datatype Db = Db(regions: Table, positions: Table, members: seq<Member>, assignments: seq<Assignment>)

  /** A uniqueness constraint of the schema, in the order SQLite checks them here. */
  datatype Violation =
    | RegionIdTaken
    | PositionIdTaken
    | PositionNameTaken
    | MemberIdTaken
    | PhoneTaken
    | AssignmentKeyTaken

  /** `positions.name` is declared `unique=True`. */
  predicate UniqueNames(t: Table)
  {
    forall i, j :: 0 <= i < j < |t| ==> t[i].name != t[j].name
  }

  /** The unique index on `members.phone_number`; NULLs never collide, empty strings do. */
  predicate UniquePhones(ms: seq<Member>)
  {
    forall i, j :: 0 <= i < j < |ms| && ms[i].phoneNumber.Some? ==> ms[i].phoneNumber != ms[j].phoneNumber
  }

  /** The first constraint the state breaks, if any. */
  function Violated(db: Db): (v: Option<Violation>)
    ensures v.None? <==> Consistent(db)
  {
    if !UniqueIds(db.regions) then Some(RegionIdTaken)
    else if !UniqueIds(db.positions) then Some(PositionIdTaken)
    else if !UniqueNames(db.positions) then Some(PositionNameTaken)
    else if !UniqueMemberIds(db.members) then Some(MemberIdTaken)
    else if !UniquePhones(db.members) then Some(PhoneTaken)
    else if !UniqueKeys(db.assignments) then Some(AssignmentKeyTaken)
    else None
  }

  /** Every constraint of the schema holds. */
  predicate Consistent(db: Db)
  {
    UniqueIds(db.regions) && UniqueIds(db.positions) && UniqueNames(db.positions)
    && UniqueMemberIds(db.members) && UniquePhones(db.members) && UniqueKeys(db.assignments)
  }

  /** Why a flush or commit raised: an `IntegrityError`, or any other driver error with its text. */
  datatype CommitError = IntegrityError(violation: Violation) | OperationalError(message: string)

  /** The text SQLite puts in a failed uniqueness check. */
  function ConstraintText(v: Violation): string
  {
    match v
    case RegionIdTaken => "UNIQUE constraint failed: regions.id"
    case PositionIdTaken => "UNIQUE constraint failed: positions.id"
    case PositionNameTaken => "UNIQUE constraint failed: positions.name"
    case MemberIdTaken => "UNIQUE constraint failed: members.id"
    case PhoneTaken => "UNIQUE constraint failed: members.phone_number"
    case AssignmentKeyTaken => "UNIQUE constraint failed: member_positions.member_id, member_positions.position_id"
  }

  /** `str(e)` for the exception a failed commit raises (the SQL echo SQLAlchemy appends is left out). */
  function ErrorText(e: CommitError): string
  {
    match e
    case IntegrityError(v) => "(sqlite3.IntegrityError) " + ConstraintText(v)
    case OperationalError(m) => m
  }

  /** Distinct constraints give distinguishable messages. */
  lemma ConstraintTextInjective(v: Violation, w: Violation)
    requires ConstraintText(v) == ConstraintText(w)
    ensures v == w
  {
    var a, b := ConstraintText(v), ConstraintText(w);
    assert a[|"UNIQUE constraint failed: "|] == b[|"UNIQUE constraint failed: "|];
    assert |a| == |b|;
  }

  /**
    What writing `working` does: an integrity error when a constraint breaks,
    otherwise the environment's failure `fault` if there is one.
   */
  function WriteOutcome(working: Db, fault: Option<string>): (e: Option<CommitError>)
    ensures e.None? <==> Consistent(working) && fault.None?
    ensures !Consistent(working) ==> e.Some? && e.value.IntegrityError?
  {
    match Violated(working)
    case Some(v) => Some(IntegrityError(v))
    case None => if fault.Some? then Some(OperationalError(fault.value)) else None
  }

  /** The database file: the state every session last committed. */
  class Database {
    var state: Db

    ghost predicate Valid()
      reads this
    {
      Consistent(state)
    }

    constructor (initial: Db)
      requires Consistent(initial)
      ensures Valid() && state == initial
    {
      state := initial;
    }
  }

  /** A session: pending changes on top of the committed state, flushed and committed together. */
  class Session {
    const db: Database
    var working: Db

    /** `Session()`: a new session sees exactly the committed state. */
    constructor (db: Database)
      ensures this.db == db && working == db.state
    {
      this.db := db;
      working := db.state;
    }

    /** `session.flush()`: the pending rows are sent, so a broken constraint raises now. */
    method Flush() returns (e: Option<CommitError>)
      ensures e.None? <==> Consistent(working)
      ensures e.Some? ==> e == Some(IntegrityError(Violated(working).value))
    {
      match Violated(working)
      case Some(v) => e := Some(IntegrityError(v));
      case None => e := None;
    }

    /**
      `session.commit()`: on success the working state becomes the committed
      state; on failure the committed state is untouched.
     */
    method Commit(fault: Option<string>) returns (e: Option<CommitError>)
      requires db.Valid()
      modifies db
      ensures db.Valid()
      ensures e == WriteOutcome(working, fault)
      ensures db.state == if e.None? then working else old(db.state)
    {
      e := WriteOutcome(working, fault);
      if e.None? {
        db.state := working;
      }
    }

    /** `session.rollback()`: every change since the last commit is discarded. */
    method Rollback()
      modifies this
      ensures working == db.state
    {
      working := db.state;
    }
  }
}
