/** The two read-only lookups over `member_positions`. */
module MemberPositionRepository {
  import opened Wrappers
  import opened Entities

  /** `filter_by(member_id=m, position_id=p).first()`. */
  function FindByMemberAndPosition(a: seq<Assignment>, m: int, p: int): (r: Option<Assignment>)
    ensures r.Some? ==> r.value in a && r.value.memberId == m && r.value.positionId == p
    ensures r.None? <==> forall x :: x in a ==> x.memberId != m || x.positionId != p
  {
    if a == [] then None
    else if a[0].memberId == m && a[0].positionId == p then Some(a[0])
    else
      assert forall x :: x in a <==> x == a[0] || x in a[1..];
      FindByMemberAndPosition(a[1..], m, p)
  }

  /** `filter_by(member_id=m, is_primary=True).count()`. */
  function PrimaryCount(a: seq<Assignment>, m: int): (c: nat)
    ensures c <= |a|
  {
    if a == [] then 0
    else (if a[0].memberId == m && a[0].isPrimary then 1 else 0) + PrimaryCount(a[1..], m)
  }

  /** `has_primary_position`: the count is positive. */
  function HasPrimaryPosition(a: seq<Assignment>, m: int): (b: bool)
  {
    PrimaryCount(a, m) > 0
  }

  /** The count is positive exactly when some row of `m` is primary. */
  lemma {:induction false} HasPrimaryIffPrimaryRow(a: seq<Assignment>, m: int)
    ensures HasPrimaryPosition(a, m) <==> exists x :: x in a && x.memberId == m && x.isPrimary
  {
    if a != [] {
      HasPrimaryIffPrimaryRow(a[1..], m);
      assert forall x :: x in a <==> x == a[0] || x in a[1..];
    }
  }

  /** Rows of other members and non-primary rows do not affect the answer. */
  lemma {:induction false} HasPrimaryIgnoresOtherRows(a: seq<Assignment>, m: int, x: Assignment)
    requires x.memberId != m || !x.isPrimary
    ensures HasPrimaryPosition([x] + a, m) == HasPrimaryPosition(a, m)
    ensures HasPrimaryPosition(a + [x], m) == HasPrimaryPosition(a, m)
  {
    assert ([x] + a)[1..] == a;
    PrimaryCountAppend(a, [x], m);
    assert PrimaryCount([x], m) == 0 by {
      assert [x][1..] == [];
    }
  }

  lemma {:induction false} PrimaryCountAppend(a: seq<Assignment>, b: seq<Assignment>, m: int)
    ensures PrimaryCount(a + b, m) == PrimaryCount(a, m) + PrimaryCount(b, m)
  {
    if a != [] {
      assert (a + b)[1..] == a[1..] + b;
      PrimaryCountAppend(a[1..], b, m);
    } else {
      assert a + b == b;
    }
  }

  /** Under the primary key at most one row has a given key, so the lookup returns that row. */
  lemma {:induction false} FindReturnsTheRow(a: seq<Assignment>, x: Assignment)
    requires UniqueKeys(a) && x in a
    ensures FindByMemberAndPosition(a, x.memberId, x.positionId) == Some(x)
  {
    if a[0] != x {
      assert a[0].memberId != x.memberId || a[0].positionId != x.positionId;
      assert x in a[1..];
      FindReturnsTheRow(a[1..], x);
    }
  }
}
