/**
  The parent relation of a self-referential table (`regions`, `positions`)
  and the facts about it that the tree queries rely on: reachability along
  parent links, acyclicity, and what re-parenting a row does to both.
 */
module Hierarchy {
  import opened Wrappers
  import opened Entities

  /** The parent link of row `x`; None for a root and for an id that is not a row. */
  function ParentOf(t: Table, x: int): Option<int>
  {
    match Find(t, x)
    case None => None
    case Some(n) => n.parentId
  }

  /** The id reached from `x` after following `k` parent links (the `k`-th ancestor). */
  function Up(t: Table, x: int, k: nat): Option<int>
  {
    if k == 0 then Some(x)
    else
      match Up(t, x, k - 1)
      case None => None
      case Some(y) => ParentOf(t, y)
  }

  /** The parent chain of `d` reaches `a` in one or more steps. */
  ghost predicate IsDescendant(t: Table, d: int, a: int)
  {
    exists k: nat :: 1 <= k && Up(t, d, k) == Some(a)
  }

  /** No parent chain returns to where it started. */
  ghost predicate Acyclic(t: Table)
  {
    forall x: int, k: nat :: 1 <= k ==> Up(t, x, k) != Some(x)
  }

  /** All rows whose parent chain reaches `a`. */
  ghost function Descendants(t: Table, a: int): set<int>
  {
    set d | d in Ids(t) && IsDescendant(t, d, a)
  }

  /** `session.query(Model.id).filter(Model.parent_id == p).all()`: the direct children, in table order. */
  function ChildIds(t: Table, p: int): (cs: seq<int>)
    ensures forall c :: c in cs ==> exists n :: n in t && n.id == c && n.parentId == Some(p)
    ensures forall n :: n in t && n.parentId == Some(p) ==> n.id in cs
  {
    if t == [] then []
    else
      assert forall n :: n in t ==> n == t[0] || n in t[1..];
      (if t[0].parentId == Some(p) then [t[0].id] else []) + ChildIds(t[1..], p)
  }

  lemma {:induction false} UpNoneStays(t: Table, x: int, j: nat, k: nat)
    requires j <= k && Up(t, x, j) == None
    ensures Up(t, x, k) == None
  {
    if j < k {
      UpNoneStays(t, x, j, k - 1);
    }
  }

  /** Following `j` links and then `k` more is following `j + k`. */
  lemma {:induction false} UpCompose(t: Table, x: int, j: nat, k: nat, n: nat)
    requires n == j + k && Up(t, x, j).Some?
    ensures Up(t, x, n) == Up(t, Up(t, x, j).value, k)
  {
    if k > 0 {
      UpCompose(t, x, j, k - 1, n - 1);
    }
  }

  lemma ParentIsRow(t: Table, x: int)
    requires ParentOf(t, x).Some?
    ensures x in Ids(t)
  {
  }

  lemma DescendantIsRow(t: Table, d: int, a: int)
    requires IsDescendant(t, d, a)
    ensures d in Ids(t)
  {
    var k: nat :| 1 <= k && Up(t, d, k) == Some(a);
    assert Up(t, d, 1) == ParentOf(t, d);
    if Up(t, d, 1) == None {
      UpNoneStays(t, d, 1, k);
      assert false;
    }
    assert Find(t, d).Some?;
  }

  lemma DescendantTransitive(t: Table, d: int, c: int, a: int)
    requires IsDescendant(t, d, c) && IsDescendant(t, c, a)
    ensures IsDescendant(t, d, a)
  {
    hide Up, ParentOf;
    var j: nat :| 1 <= j && Up(t, d, j) == Some(c);
    var k: nat :| 1 <= k && Up(t, c, k) == Some(a);
    UpCompose(t, d, j, k, j + k);
    assert Up(t, d, j + k) == Some(a);
  }

  /** Descending from `a` means being a child of `a` or descending from one of its children. */
  lemma DescendantStep(t: Table, d: int, a: int)
    requires IsDescendant(t, d, a)
    ensures ParentOf(t, d) == Some(a) || exists c :: ParentOf(t, c) == Some(a) && IsDescendant(t, d, c)
  {
    var k: nat :| 1 <= k && Up(t, d, k) == Some(a);
    if k == 1 {
      assert Up(t, d, 1) == ParentOf(t, d);
    } else {
      assert Up(t, d, k - 1).Some?;
      var c := Up(t, d, k - 1).value;
      assert ParentOf(t, c) == Some(a);
      assert 1 <= k - 1 && Up(t, d, k - 1) == Some(c);
      assert IsDescendant(t, d, c);
    }
  }

  lemma ChildIsDescendant(t: Table, c: int, a: int)
    requires ParentOf(t, c) == Some(a)
    ensures IsDescendant(t, c, a)
  {
    assert Up(t, c, 1) == Some(a);
  }

  /** With unique ids, the child query returns exactly the ids whose parent link is `p`. */
  lemma ChildIdsAreChildren(t: Table, p: int, c: int)
    requires UniqueIds(t)
    ensures c in ChildIds(t, p) <==> ParentOf(t, c) == Some(p)
  {
    if c in ChildIds(t, p) {
      var n :| n in t && n.id == c && n.parentId == Some(p);
      FindUnique(t, n);
    }
  }

  lemma SubsetCardinality(a: set<int>, b: set<int>)
    requires a < b
    ensures |a| < |b|
  {
    var c := b - a;
    if c == {} {
      assert false;
    }
    assert b == a + c && a * c == {};
    assert |b| == |a| + |c|;
  }

  /** Under acyclicity, a child has strictly fewer descendants than its parent: the recursion measure. */
  lemma ChildShrinks(t: Table, p: int, c: int)
    requires Acyclic(t) && ParentOf(t, c) == Some(p)
    ensures Descendants(t, c) < Descendants(t, p)
    ensures |Descendants(t, c)| < |Descendants(t, p)|
  {
    ChildIsDescendant(t, c, p);
    forall d | d in Descendants(t, c) ensures d in Descendants(t, p) {
      DescendantTransitive(t, d, c, p);
    }
    assert c in Descendants(t, p);
    assert Up(t, c, 1) != Some(c);
    assert c !in Descendants(t, c);
    SubsetCardinality(Descendants(t, c), Descendants(t, p));
  }

  /** The ids below the first `|cs|` entries of a child list: each child and its descendants. */
  ghost function Below(t: Table, cs: seq<int>): set<int>
  {
    if cs == [] then {}
    else Below(t, cs[..|cs| - 1]) + {cs[|cs| - 1]} + Descendants(t, cs[|cs| - 1])
  }

  /** One more child: its id and its subtree join the set. */
  lemma BelowNext(t: Table, cs: seq<int>, i: nat)
    requires i < |cs|
    ensures Below(t, cs[..i + 1]) == Below(t, cs[..i]) + {cs[i]} + Descendants(t, cs[i])
  {
    assert cs[..i + 1][..i] == cs[..i];
  }

  lemma {:induction false} BelowMember(t: Table, cs: seq<int>, d: int)
    ensures d in Below(t, cs) <==> exists i :: 0 <= i < |cs| && (d == cs[i] || d in Descendants(t, cs[i]))
  {
    if cs != [] {
      var init := cs[..|cs| - 1];
      BelowMember(t, init, d);
      assert forall i :: 0 <= i < |init| ==> init[i] == cs[i];
    }
  }

  /** A descendant of something already collected is already collected. */
  lemma BelowClosed(t: Table, cs: seq<int>, c: int)
    requires c in Below(t, cs)
    ensures Descendants(t, c) <= Below(t, cs)
    ensures Below(t, cs) + {c} + Descendants(t, c) == Below(t, cs)
  {
    BelowMember(t, cs, c);
    var i :| 0 <= i < |cs| && (c == cs[i] || c in Descendants(t, cs[i]));
    forall d | d in Descendants(t, c) ensures d in Below(t, cs) {
      if c != cs[i] {
        DescendantTransitive(t, d, c, cs[i]);
      }
      assert d in Descendants(t, cs[i]);
      BelowMember(t, cs, d);
    }
  }

  /** Collecting every child and its descendants yields exactly the descendants. */
  lemma BelowChildren(t: Table, r: int)
    requires UniqueIds(t)
    ensures Below(t, ChildIds(t, r)) == Descendants(t, r)
  {
    var cs := ChildIds(t, r);
    forall d ensures d in Below(t, cs) <==> d in Descendants(t, r) {
      BelowMember(t, cs, d);
      if d in Below(t, cs) {
        var i :| 0 <= i < |cs| && (d == cs[i] || d in Descendants(t, cs[i]));
        ChildIdsAreChildren(t, r, cs[i]);
        ChildIsDescendant(t, cs[i], r);
        if d != cs[i] {
          DescendantTransitive(t, d, cs[i], r);
        }
        DescendantIsRow(t, d, r);
      }
      if d in Descendants(t, r) {
        DescendantStep(t, d, r);
        if ParentOf(t, d) == Some(r) {
          ChildIdsAreChildren(t, r, d);
          var i :| 0 <= i < |cs| && cs[i] == d;
        } else {
          var c :| ParentOf(t, c) == Some(r) && IsDescendant(t, d, c);
          ChildIdsAreChildren(t, r, c);
          var i :| 0 <= i < |cs| && cs[i] == c;
          assert d in Descendants(t, cs[i]);
        }
      }
    }
  }

  /** The table after `row.parent_id = p` on the row with id `x`. */
  function SetParent(t: Table, x: int, p: Option<int>): (t': Table)
    ensures |t'| == |t|
    ensures forall i :: 0 <= i < |t| ==> t'[i] == if t[i].id == x then t[i].(parentId := p) else t[i]
  {
    if t == [] then []
    else [if t[0].id == x then t[0].(parentId := p) else t[0]] + SetParent(t[1..], x, p)
  }

  lemma {:induction false} ParentOfSetParent(t: Table, x: int, p: Option<int>, y: int)
    ensures ParentOf(SetParent(t, x, p), y) == if y == x && x in Ids(t) then p else ParentOf(t, y)
  {
    if t != [] && t[0].id != y {
      ParentOfSetParent(t[1..], x, p, y);
      assert SetParent(t, x, p)[1..] == SetParent(t[1..], x, p);
      assert y in Ids(t) <==> y in Ids(t[1..]) by {
        assert forall n :: n in t ==> n == t[0] || n in t[1..];
      }
    }
  }

  /** `t'` differs from `t` at most in the parent link of `x`. */
  ghost predicate SameParentsExcept(t: Table, t': Table, x: int)
  {
    forall y :: y != x ==> ParentOf(t', y) == ParentOf(t, y)
  }

  lemma SetParentChangesOnlyX(t: Table, x: int, p: Option<int>)
    ensures SameParentsExcept(t, SetParent(t, x, p), x)
    ensures ParentOf(SetParent(t, x, p), x) == if x in Ids(t) then p else None
  {
    forall y ensures ParentOf(SetParent(t, x, p), y) == if y == x && x in Ids(t) then p else ParentOf(t, y) {
      ParentOfSetParent(t, x, p, y);
    }
    assert x !in Ids(t) ==> ParentOf(t, x) == None;
  }

  /** Chains that do not pass through the re-parented row are the same before and after. */
  lemma {:induction false} Agree(t: Table, t': Table, x: int, z: int, n: nat)
    requires SameParentsExcept(t, t', x)
    requires forall i :: 0 <= i < n ==> Up(t', z, i) != Some(x)
    ensures Up(t', z, n) == Up(t, z, n)
  {
    hide ParentOf;
    if n > 0 {
      Agree(t, t', x, z, n - 1);
    }
  }

  /** The same, with the condition read in the original table. */
  lemma {:induction false} AgreeFromOriginal(t: Table, t': Table, x: int, z: int, n: nat)
    requires SameParentsExcept(t, t', x)
    requires forall i :: 0 <= i < n ==> Up(t, z, i) != Some(x)
    ensures Up(t', z, n) == Up(t, z, n)
  {
    hide ParentOf;
    if n > 0 {
      AgreeFromOriginal(t, t', x, z, n - 1);
    }
  }

  /** A chain either passes through `x` within its first `n` steps or is the same in both tables. */
  lemma {:induction false} AgreeOrHit(t: Table, t': Table, x: int, z: int, n: nat) returns (hit: bool, i: nat)
    requires SameParentsExcept(t, t', x)
    ensures hit ==> i < n && Up(t', z, i) == Some(x)
    ensures !hit ==> Up(t', z, n) == Up(t, z, n)
  {
    hide ParentOf;
    if n == 0 {
      hit, i := false, 0;
    } else {
      hit, i := AgreeOrHit(t, t', x, z, n - 1);
      if !hit && Up(t', z, n - 1) == Some(x) {
        hit, i := true, n - 1;
      }
    }
  }

  /** The first step at which a chain reaches `x`. */
  lemma {:induction false} FirstHit(t: Table, z: int, x: int, n: nat) returns (j: nat)
    requires Up(t, z, n) == Some(x)
    ensures j <= n && Up(t, z, j) == Some(x)
    ensures forall i :: 0 <= i < j ==> Up(t, z, i) != Some(x)
  {
    if exists i :: 0 <= i < n && Up(t, z, i) == Some(x) {
      var i :| 0 <= i < n && Up(t, z, i) == Some(x);
      j := FirstHit(t, z, x, i);
    } else {
      j := n;
    }
  }

  /** After re-parenting `x` under an allowed parent, no chain from `x` returns to `x`. */
  lemma NoCycleAtReparented(t: Table, t': Table, x: int, p: Option<int>, n: nat)
    requires Acyclic(t) && SameParentsExcept(t, t', x)
    requires ParentOf(t', x) == p || ParentOf(t', x) == None
    requires p.Some? ==> p.value != x && !IsDescendant(t, p.value, x)
    requires 1 <= n
    ensures Up(t', x, n) != Some(x)
  {
    hide ParentOf;
    assert Up(t', x, 1) == ParentOf(t', x);
    if ParentOf(t', x) == None {
      UpNoneStays(t', x, 1, n);
    } else {
      var q := p.value;
      UpCompose(t', x, 1, n - 1, n);
      if Up(t', q, n - 1) == Some(x) {
        var j := FirstHit(t', q, x, n - 1);
        Agree(t, t', x, q, j);
        assert false;
      }
    }
  }

  /** Re-parenting a row onto anything but itself or one of its descendants keeps the table acyclic. */
  lemma ReparentKeepsAcyclic(t: Table, x: int, p: Option<int>)
    requires Acyclic(t)
    requires p.Some? ==> p.value != x && !IsDescendant(t, p.value, x)
    ensures Acyclic(SetParent(t, x, p))
  {
    var t' := SetParent(t, x, p);
    SetParentChangesOnlyX(t, x, p);
    forall y: int, k: nat | 1 <= k ensures Up(t', y, k) != Some(y) {
      NoReturn(t, t', x, p, y, k);
    }
  }

  /** A cycle from `y` that passes through `x` is also a cycle from `x`, of the same length. */
  lemma ReturnThrough(t: Table, y: int, x: int, i: nat, k: nat)
    requires i < k && Up(t, y, i) == Some(x) && Up(t, y, k) == Some(y)
    ensures Up(t, x, k) == Some(x)
  {
    hide Up, ParentOf;
    UpCompose(t, y, i, k - i, k);
    UpCompose(t, x, k - i, i, k);
  }

  lemma NoReturn(t: Table, t': Table, x: int, p: Option<int>, y: int, k: nat)
    requires Acyclic(t) && SameParentsExcept(t, t', x)
    requires ParentOf(t', x) == p || ParentOf(t', x) == None
    requires p.Some? ==> p.value != x && !IsDescendant(t, p.value, x)
    requires 1 <= k
    ensures Up(t', y, k) != Some(y)
  {
    var hit, i := AgreeOrHit(t, t', x, y, k);
    if !hit {
      assert Up(t, y, k) != Some(y);
    } else {
      if Up(t', y, k) == Some(y) {
        ReturnThrough(t', y, x, i, k);
        NoCycleAtReparented(t, t', x, p, k);
        assert false;
      }
    }
  }

  /** Re-parenting a row onto itself or one of its descendants creates a cycle. */
  lemma ReparentOntoSubtreeCycles(t: Table, x: int, q: int)
    requires x in Ids(t)
    requires q == x || IsDescendant(t, q, x)
    ensures !Acyclic(SetParent(t, x, Some(q)))
  {
    SetParentChangesOnlyX(t, x, Some(q));
    var k := CycleThroughNewParent(t, SetParent(t, x, Some(q)), x, q);
  }

  lemma CycleThroughNewParent(t: Table, t': Table, x: int, q: int) returns (k: nat)
    requires SameParentsExcept(t, t', x) && ParentOf(t', x) == Some(q)
    requires q == x || IsDescendant(t, q, x)
    ensures 1 <= k && Up(t', x, k) == Some(x)
  {
    assert Up(t', x, 1) == Some(q);
    if q == x {
      k := 1;
    } else {
      var j := ChainStillReaches(t, t', x, q);
      UpCompose(t', x, 1, j, 1 + j);
      k := 1 + j;
    }
  }

  /** A chain from `q` that reaches `x` still reaches it when only `x`'s own link changed. */
  lemma ChainStillReaches(t: Table, t': Table, x: int, q: int) returns (j: nat)
    requires SameParentsExcept(t, t', x) && IsDescendant(t, q, x)
    ensures Up(t', q, j) == Some(x)
  {
    var k: nat :| 1 <= k && Up(t, q, k) == Some(x);
    j := FirstHit(t, q, x, k);
    AgreeFromOriginal(t, t', x, q, j);
  }
}
