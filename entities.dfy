/**
  The persisted entities. `regions` and `positions` have the same shape (a
  self-referential tree keyed by `id` with a nullable `parent_id`); a table is
  a sequence of rows in storage (rowid) order, which is the order a plain query
  returns them in.
 */
module Entities {
  import opened Wrappers

  /** A row of `regions` or `positions`. `rank` is nullable; regions carry none, so theirs stays `None`. */
  datatype TreeNode = TreeNode(id: int, name: string, parentId: Option<int>, rank: Option<int>)

  type Table = seq<TreeNode>

  /** `id` is the primary key. */
  predicate UniqueIds(t: Table)
  {
    forall i, j :: 0 <= i < j < |t| ==> t[i].id != t[j].id
  }

  function Ids(t: Table): set<int>
  {
    set n | n in t :: n.id
  }

  /** `session.query(Model).filter_by(id=id).first()`. */
  function Find(t: Table, id: int): (r: Option<TreeNode>)
    ensures r.Some? ==> r.value in t && r.value.id == id
    ensures r.None? <==> id !in Ids(t)
  {
    if t == [] then None
    else if t[0].id == id then Some(t[0])
    else
      assert forall n :: n in t[1..] ==> n in t;
      assert forall n :: n in t ==> n == t[0] || n in t[1..];
      Find(t[1..], id)
  }

  lemma {:induction false} FindUnique(t: Table, n: TreeNode)
    requires UniqueIds(t) && n in t
    ensures Find(t, n.id) == Some(n)
  {
    if t[0] != n {
      assert t[0].id != n.id;
      FindUnique(t[1..], n);
    }
  }

  /** A row of `members`. `is_schedulable` is an Integer column (1 by default). */
  datatype Member = Member(id: int, name: string, phoneNumber: Option<string>, isSchedulable: int, regionId: Option<int>)

  predicate UniqueMemberIds(ms: seq<Member>)
  {
    forall i, j :: 0 <= i < j < |ms| ==> ms[i].id != ms[j].id
  }

  function FindMember(ms: seq<Member>, id: int): (r: Option<Member>)
    ensures r.Some? ==> r.value in ms && r.value.id == id
    ensures r.None? <==> forall m :: m in ms ==> m.id != id
  {
    if ms == [] then None
    else if ms[0].id == id then Some(ms[0])
    else
      assert forall m :: m in ms ==> m == ms[0] || m in ms[1..];
      FindMember(ms[1..], id)
  }

  /** A row of `member_positions`; `(member_id, position_id)` is the primary key. */
  datatype Assignment = Assignment(memberId: int, positionId: int, isPrimary: bool)

  /** `(member_id, position_id)` is the primary key of `member_positions`. */
  predicate UniqueKeys(a: seq<Assignment>)
  {
    forall i, j :: 0 <= i < j < |a| ==> a[i].memberId != a[j].memberId || a[i].positionId != a[j].positionId
  }

  /** The rowid SQLite gives a new row of a table without AUTOINCREMENT: one more than the largest in use, 1 for an empty table. */
  function NextId(ids: seq<int>): (n: int)
    ensures ids == [] ==> n == 1
    ensures forall i :: 0 <= i < |ids| ==> ids[i] < n
    ensures ids != [] ==> exists i :: 0 <= i < |ids| && n == ids[i] + 1
  {
    if |ids| <= 1 then
      if ids == [] then 1 else ids[0] + 1
    else
      var rest := NextId(ids[1..]);
      var i :| 0 <= i < |ids[1..]| && rest == ids[1..][i] + 1;
      assert rest == ids[i + 1] + 1;
      if ids[0] + 1 > rest then ids[0] + 1 else rest
  }

  function NodeIds(t: Table): (ids: seq<int>)
    ensures |ids| == |t| && forall i :: 0 <= i < |t| ==> ids[i] == t[i].id
  {
    seq(|t|, i requires 0 <= i < |t| => t[i].id)
  }

  function MemberIds(ms: seq<Member>): (ids: seq<int>)
    ensures |ids| == |ms| && forall i :: 0 <= i < |ms| ==> ids[i] == ms[i].id
  {
    seq(|ms|, i requires 0 <= i < |ms| => ms[i].id)
  }
}
