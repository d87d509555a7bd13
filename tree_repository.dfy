/**
  The queries that `RegionRepository` and `PositionRepository` share: a row
  with its children, the ids below a row, and the rows that may become a
  row's parent. Both repositories run the same code on their own table, so
  it is modelled once over a `Table`.
 */
module TreeRepository {
  import opened Wrappers
  import opened Entities
  import opened Hierarchy
  import opened Sorting
  import opened Text

  /** The rows whose `parent_id` is `p`, in table order (the `children` relationship). */
  function ChildRows(t: Table, p: int): (cs: Table)
    ensures forall n :: n in cs <==> n in t && n.parentId == Some(p)
  {
    if t == [] then []
    else
      assert forall n :: n in t <==> n == t[0] || n in t[1..];
      (if t[0].parentId == Some(p) then [t[0]] else []) + ChildRows(t[1..], p)
  }

  /** `get_by_id_with_children`: the row with the id, its children loaded, or None. */
  function GetByIdWithChildren(t: Table, id: int): (r: Option<(TreeNode, Table)>)
    ensures r.None? <==> id !in Ids(t)
    ensures r.Some? ==> r.value.0 in t && r.value.0.id == id
    ensures r.Some? ==> forall c :: c in r.value.1 <==> c in t && c.parentId == Some(id)
  {
    match Find(t, id)
    case None => None
    case Some(n) => Some((n, ChildRows(t, id)))
  }

  /**
    `_get_all_descendant_ids`: the ids of every row below `r`. The source
    recurses without a depth bound, so it terminates only on an acyclic table.
   */
  method DescendantIds(t: Table, r: int) returns (ds: set<int>)
    requires UniqueIds(t) && Acyclic(t)
    ensures ds == Descendants(t, r)
    ensures r !in ds
    decreases |Descendants(t, r)|
  {
    // The lemmas called below carry every fact about subtrees the loop needs.
    ds := {};
    var children := ChildIds(t, r);
    BelowChildren(t, r);
    assert Below(t, children[..0]) == {} by { assert children[..0] == []; }
    NotOwnDescendant(t, r);
    hide *;
    var i := 0;
    while i < |children|
      invariant 0 <= i <= |children|
      invariant ds == Below(t, children[..i])
    {
      var c := children[i];
      ChildStep(t, r, children, i);
      if c !in ds {
        var below := DescendantIds(t, c);
        ds := ds + {c} + below;
      }
      i := i + 1;
    }
    assert children[..|children|] == children;
  }

  /** What one pass of `_get_all_descendant_ids`'s loop relies on about the child `children[i]`. */
  lemma ChildStep(t: Table, r: int, children: seq<int>, i: nat)
    requires UniqueIds(t) && Acyclic(t) && children == ChildIds(t, r) && i < |children|
    ensures |Descendants(t, children[i])| < |Descendants(t, r)|
    ensures Below(t, children[..i + 1]) == Below(t, children[..i]) + {children[i]} + Descendants(t, children[i])
    ensures children[i] in Below(t, children[..i]) ==> Below(t, children[..i + 1]) == Below(t, children[..i])
  {
    var c := children[i];
    BelowNext(t, children, i);
    ChildIdsAreChildren(t, r, c);
    ChildShrinks(t, r, c);
    if c in Below(t, children[..i]) {
      BelowClosed(t, children[..i], c);
    }
  }

  /** On an acyclic table no row is below itself. */
  lemma NotOwnDescendant(t: Table, r: int)
    requires Acyclic(t)
    ensures r !in Descendants(t, r)
  {
  }

  /** `query.filter(Model.id.notin_(ex))`, keeping table order. */
  function Without(t: Table, ex: set<int>): (r: Table)
    ensures forall n :: n in r <==> n in t && n.id !in ex
    ensures |r| <= |t|
  {
    if t == [] then []
    else
      assert forall n :: n in t <==> n == t[0] || n in t[1..];
      (if t[0].id in ex then [] else [t[0]]) + Without(t[1..], ex)
  }

  /** `order_by(Model.name)`: SQLite's default BINARY collation compares code points. */
  predicate NameLe(a: TreeNode, b: TreeNode)
  {
    LexLe(a.name, b.name)
  }

  lemma NameLeIsPreorder()
    ensures TotalPreorder(NameLe)
  {
    forall a: TreeNode, b: TreeNode ensures NameLe(a, b) || NameLe(b, a) {
      LexLeTotal(a.name, b.name);
    }
    forall a: TreeNode, b: TreeNode, c: TreeNode | NameLe(a, b) && NameLe(b, c) ensures NameLe(a, c) {
      LexLeTransitive(a.name, b.name, c.name);
    }
  }

  /** The rows a row may be attached under: in edit mode anything but itself and its subtree. */
  ghost predicate Eligible(t: Table, editing: Option<int>, n: TreeNode)
  {
    n in t && (editing.Some? ==> n.id != editing.value && n.id !in Descendants(t, editing.value))
  }

  /**
    `get_possible_parents`: every row, or in edit mode every row except the
    edited one and its descendants, ordered by name.
   */
  method GetPossibleParents(t: Table, editing: Option<int>) returns (ps: Table)
    requires UniqueIds(t)
    requires editing.Some? ==> Acyclic(t)
    ensures forall n :: n in ps <==> Eligible(t, editing, n)
    ensures editing.None? ==> multiset(ps) == multiset(t)
    ensures editing.Some? ==> multiset(ps) == multiset(Without(t, {editing.value} + Descendants(t, editing.value)))
    ensures SortedBy(ps, NameLe)
  {
    var candidates := t;
    if editing.Some? {
      var excluded := {editing.value};
      var below := DescendantIds(t, editing.value);
      excluded := excluded + below;
      candidates := Without(t, excluded);
    }
    NameLeIsPreorder();
    ps := SortBy(candidates, NameLe);
    SameElements(ps, candidates);
  }

  /**
    What the exclusion is for: re-parenting the edited row under a row the
    list offers keeps the hierarchy acyclic, and under any other existing row
    would close a cycle.
   */
  lemma OfferedParentsAreExactlySafe(t: Table, x: int, q: TreeNode)
    requires Acyclic(t) && x in Ids(t) && q in t
    ensures Eligible(t, Some(x), q) <==> Acyclic(SetParent(t, x, Some(q.id)))
  {
    if Eligible(t, Some(x), q) {
      assert !IsDescendant(t, q.id, x);
      ReparentKeepsAcyclic(t, x, Some(q.id));
    } else {
      assert q.id in Ids(t);
      ReparentOntoSubtreeCycles(t, x, q.id);
    }
  }
}
