/**
  Re-ordering the position tree: the widget walks its items in pre-order and
  sends every position's new parent and rank (its index among its siblings)
  to the view model; "move up" and "move down" swap the selected item with
  its neighbour among its siblings and then send the walk.
 */
module TreeReorder {
  import opened Wrappers
  import opened Entities
  import opened Hierarchy
  import opened TreeWidget
  import opened PositionListViewModel

  /** The entries `_traverse_tree_item(x, parentId, ...)` appends for the subtree `x`, whose index among its siblings is `rank`. */
  function PreOrder(x: Item, parentId: Option<int>, rank: int): (es: seq<HierarchyEntry>)
    ensures |es| >= 1 && es[0] == HierarchyEntry(x.node.id, parentId, rank)
    decreases x
  {
    [HierarchyEntry(x.node.id, parentId, rank)] + PreOrderFrom(x.children, Some(x.node.id), 0)
  }

  /** The entries for the siblings `xs[start..]`, each with its own index as rank. */
  function PreOrderFrom(xs: seq<Item>, parentId: Option<int>, start: nat): seq<HierarchyEntry>
    requires start <= |xs|
    decreases xs, |xs| - start
  {
    if start == |xs| then [] else PreOrder(xs[start], parentId, start) + PreOrderFrom(xs, parentId, start + 1)
  }

  /** What `_update_position_hierarchy_in_viewmodel` sends: every top-level item walked with no parent. */
  function UpdatedHierarchy(roots: seq<Item>): seq<HierarchyEntry>
  {
    PreOrderFrom(roots, None, 0)
  }

  /** `_traverse_tree_item`: append the item's entry, then walk its children with the item's id as parent. */
  method TraverseTreeItem(x: Item, parentId: Option<int>, rank: int, hierarchyList: seq<HierarchyEntry>)
    returns (r: seq<HierarchyEntry>)
    ensures r == hierarchyList + PreOrder(x, parentId, rank)
    decreases x
  {
    r := hierarchyList + [HierarchyEntry(x.node.id, parentId, rank)];
    var i := 0;
    while i < |x.children|
      invariant 0 <= i <= |x.children|
      invariant r + PreOrderFrom(x.children, Some(x.node.id), i) == hierarchyList + PreOrder(x, parentId, rank)
    {
      r := TraverseTreeItem(x.children[i], Some(x.node.id), i, r);
      i := i + 1;
    }
  }

  /** `_update_position_hierarchy_in_viewmodel`: walk the top-level items in order. */
  method UpdatePositionHierarchyInViewmodel(roots: seq<Item>) returns (updatedHierarchy: seq<HierarchyEntry>)
    ensures updatedHierarchy == UpdatedHierarchy(roots)
  {
    updatedHierarchy := [];
    hide PreOrder;
    var i := 0;
    while i < |roots|
      invariant 0 <= i <= |roots|
      invariant updatedHierarchy + PreOrderFrom(roots, None, i) == UpdatedHierarchy(roots)
    {
      assert PreOrderFrom(roots, None, i) == PreOrder(roots[i], None, i) + PreOrderFrom(roots, None, i + 1);
      updatedHierarchy := TraverseTreeItem(roots[i], None, i, updatedHierarchy);
      i := i + 1;
    }
  }

  function EntryIds(es: seq<HierarchyEntry>): (ids: seq<int>)
    ensures |ids| == |es| && forall k :: 0 <= k < |es| ==> ids[k] == es[k].id
  {
    seq(|es|, k requires 0 <= k < |es| => es[k].id)
  }

  lemma {:induction false} FlattenAllAppend(a: seq<Item>, b: seq<Item>)
    ensures FlattenAll(a + b) == FlattenAll(a) + FlattenAll(b)
  {
    if a != [] {
      assert (a + b)[0] == a[0] && (a + b)[1..] == a[1..] + b;
      assert FlattenAll(a + b) == Flatten(a[0]) + FlattenAll(a[1..] + b);
      FlattenAllAppend(a[1..], b);
    } else {
      assert a + b == b;
    }
  }

  lemma {:induction false} PreOrderRows(x: Item, parentId: Option<int>, rank: int)
    ensures EntryIds(PreOrder(x, parentId, rank)) == NodeIds(Flatten(x))
    decreases x
  {
    PreOrderFromRows(x.children, Some(x.node.id), 0);
    assert x.children[0..] == x.children;
  }

  lemma {:induction false} PreOrderFromRows(xs: seq<Item>, parentId: Option<int>, start: nat)
    requires start <= |xs|
    ensures EntryIds(PreOrderFrom(xs, parentId, start)) == NodeIds(FlattenAll(xs[start..]))
    decreases xs, |xs| - start
  {
    if start < |xs| {
      PreOrderRows(xs[start], parentId, start);
      PreOrderFromRows(xs, parentId, start + 1);
      assert xs[start..][1..] == xs[start + 1..];
    }
  }

  /** The walk emits exactly one entry per item, in pre-order. */
  lemma UpdatedHierarchyRows(roots: seq<Item>)
    ensures EntryIds(UpdatedHierarchy(roots)) == NodeIds(FlattenAll(roots))
  {
    PreOrderFromRows(roots, None, 0);
    assert roots[0..] == roots;
  }

  lemma {:induction false} SiblingEntry(xs: seq<Item>, parentId: Option<int>, start: nat, i: nat)
    requires start <= i < |xs|
    ensures HierarchyEntry(xs[i].node.id, parentId, i) in PreOrderFrom(xs, parentId, start)
    decreases |xs| - start
  {
    var head := PreOrder(xs[start], parentId, start);
    var tail := PreOrderFrom(xs, parentId, start + 1);
    assert PreOrderFrom(xs, parentId, start) == head + tail;
    if start == i {
      assert (head + tail)[0] == head[0];
    } else {
      SiblingEntry(xs, parentId, start + 1, i);
      var k :| 0 <= k < |tail| && tail[k] == HierarchyEntry(xs[i].node.id, parentId, i);
      assert (head + tail)[|head| + k] == tail[k];
    }
  }

  /**
    Ranks are sibling indices: the `i`-th child of an item is sent with that
    item's id as parent and rank `i`, the `i`-th top-level item with no
    parent and rank `i`.
   */
  lemma RanksAreSiblingIndices(roots: seq<Item>, x: Item, parentId: Option<int>, rank: int)
    ensures forall i :: 0 <= i < |roots| ==> HierarchyEntry(roots[i].node.id, None, i) in UpdatedHierarchy(roots)
    ensures forall i :: 0 <= i < |x.children| ==>
      HierarchyEntry(x.children[i].node.id, Some(x.node.id), i) in PreOrder(x, parentId, rank)
  {
    forall i | 0 <= i < |roots| ensures HierarchyEntry(roots[i].node.id, None, i) in UpdatedHierarchy(roots) {
      SiblingEntry(roots, None, 0, i);
    }
    forall i | 0 <= i < |x.children|
      ensures HierarchyEntry(x.children[i].node.id, Some(x.node.id), i) in PreOrder(x, parentId, rank)
    {
      SiblingEntry(x.children, Some(x.node.id), 0, i);
    }
  }

  /** Every entry naming a parent other than `outer` comes after an entry for that parent. */
  predicate ParentsEarlier(es: seq<HierarchyEntry>, outer: Option<int>)
  {
    forall k :: 0 <= k < |es| && es[k].parentId.Some? && es[k].parentId != outer ==>
      exists j :: 0 <= j < k && es[j].id == es[k].parentId.value
  }

  lemma ParentsEarlierAppend(a: seq<HierarchyEntry>, b: seq<HierarchyEntry>, outer: Option<int>)
    requires ParentsEarlier(a, outer) && ParentsEarlier(b, outer)
    ensures ParentsEarlier(a + b, outer)
  {
    var ab := a + b;
    forall k | 0 <= k < |ab| && ab[k].parentId.Some? && ab[k].parentId != outer
      ensures exists j :: 0 <= j < k && ab[j].id == ab[k].parentId.value
    {
      if k < |a| {
        assert ab[k] == a[k];
        var j :| 0 <= j < k && a[j].id == a[k].parentId.value;
        assert ab[j] == a[j];
      } else {
        assert ab[k] == b[k - |a|];
        var j :| 0 <= j < k - |a| && b[j].id == b[k - |a|].parentId.value;
        assert ab[j + |a|] == b[j];
      }
    }
  }

  /** An entry whose subtree's entries all have their parents earlier or under it keeps that property in front of them. */
  lemma ParentsEarlierUnder(e: HierarchyEntry, rest: seq<HierarchyEntry>, outer: Option<int>)
    requires e.parentId == outer && ParentsEarlier(rest, Some(e.id))
    ensures ParentsEarlier([e] + rest, outer)
  {
    var es := [e] + rest;
    forall k | 0 <= k < |es| && es[k].parentId.Some? && es[k].parentId != outer
      ensures exists j :: 0 <= j < k && es[j].id == es[k].parentId.value
    {
      assert k >= 1 && es[k] == rest[k - 1];
      if rest[k - 1].parentId == Some(e.id) {
        assert es[0].id == e.id;
      } else {
        var j :| 0 <= j < k - 1 && rest[j].id == rest[k - 1].parentId.value;
        assert es[j + 1] == rest[j];
      }
    }
  }

  lemma {:induction false} PreOrderParentsEarlier(x: Item, parentId: Option<int>, rank: int)
    ensures ParentsEarlier(PreOrder(x, parentId, rank), parentId)
    decreases x
  {
    PreOrderFromParentsEarlier(x.children, Some(x.node.id), 0);
    ParentsEarlierUnder(HierarchyEntry(x.node.id, parentId, rank), PreOrderFrom(x.children, Some(x.node.id), 0), parentId);
  }

  lemma {:induction false} PreOrderFromParentsEarlier(xs: seq<Item>, parentId: Option<int>, start: nat)
    requires start <= |xs|
    ensures ParentsEarlier(PreOrderFrom(xs, parentId, start), parentId)
    decreases xs, |xs| - start
  {
    if start < |xs| {
      PreOrderParentsEarlier(xs[start], parentId, start);
      PreOrderFromParentsEarlier(xs, parentId, start + 1);
      ParentsEarlierAppend(PreOrder(xs[start], parentId, start), PreOrderFrom(xs, parentId, start + 1), parentId);
    }
  }

  /** In what the widget sends, every parent is sent before any of its children. */
  lemma ParentSentFirst(roots: seq<Item>)
    ensures forall k :: 0 <= k < |UpdatedHierarchy(roots)| && UpdatedHierarchy(roots)[k].parentId.Some? ==>
      exists j :: 0 <= j < k && UpdatedHierarchy(roots)[j].id == UpdatedHierarchy(roots)[k].parentId.value
  {
    PreOrderFromParentsEarlier(roots, None, 0);
  }

  /** The parent a row has in the displayed tree: its own when `display_items` put it under that item, none at the top level. */
  function WidgetParent(items: Table, n: TreeNode): Option<int>
  {
    if PlacedAsChild(items, n) then n.parentId else None
  }

  /** Each entry names a row and gives it the parent it was displayed under. */
  predicate FaithfulEntries(items: Table, es: seq<HierarchyEntry>)
  {
    forall e :: e in es ==> exists n :: n in items && n.id == e.id && e.parentId == WidgetParent(items, n)
  }

  lemma {:induction false} BuildEntries(items: Table, x: int, rank: int)
    requires UniqueIds(items) && Acyclic(items) && x in Ids(items)
    ensures FaithfulEntries(items, PreOrder(Build(items, x), WidgetParent(items, Build(items, x).node), rank))
    decreases |Descendants(items, x)|, 1
  {
    var b := Build(items, x);
    BuildChildrenEntries(items, x, 0);
    var es := PreOrder(b, WidgetParent(items, b.node), rank);
    forall e | e in es ensures exists n :: n in items && n.id == e.id && e.parentId == WidgetParent(items, n) {
      if e == es[0] {
        assert b.node in items;
      } else {
        assert e in PreOrderFrom(b.children, Some(x), 0);
      }
    }
  }

  lemma {:induction false} BuildChildrenEntries(items: Table, x: int, start: nat)
    requires UniqueIds(items) && Acyclic(items) && x in Ids(items)
    requires start <= |Build(items, x).children|
    ensures FaithfulEntries(items, PreOrderFrom(Build(items, x).children, Some(x), start))
    decreases |Descendants(items, x)|, 0, |Build(items, x).children| - start
  {
    var cs := WidgetChildIds(items, x);
    var kids := Build(items, x).children;
    if start < |kids| {
      var c := cs[start];
      WidgetChildIsChild(items, x, c);
      ChildShrinks(items, x, c);
      assert kids[start] == Build(items, c);
      ChildrenOfMembers(items, items, x);
      var n :| n in items && n.id == c && PlacedAsChild(items, n) && n.parentId == Some(x);
      FindUnique(items, n);
      assert Build(items, c).node == n;
      BuildEntries(items, c, start);
      BuildChildrenEntries(items, x, start + 1);
    }
  }

  /**
    Walking the freshly displayed tree sends every position the parent it
    was displayed under: its own parent, or none when that was null, 0 or
    not in the list.
   */
  lemma DisplayedTreeKeepsParents(items: Table)
    requires UniqueIds(items) && Acyclic(items)
    ensures FaithfulEntries(items, UpdatedHierarchy(BuildForest(items)))
  {
    var roots := BuildForest(items);
    var rs := RootIds(items);
    RootsOfMembers(items, items);
    forall i | 0 <= i < |roots| ensures FaithfulEntries(items, PreOrder(roots[i], None, i)) {
      assert rs[i] in rs;
      var n :| n in items && n.id == rs[i] && !PlacedAsChild(items, n);
      FindUnique(items, n);
      assert roots[i] == Build(items, rs[i]) && roots[i].node == n;
      BuildEntries(items, rs[i], i);
    }
    RootsEntries(roots, 0, items);
  }

  lemma {:induction false} RootsEntries(roots: seq<Item>, start: nat, items: Table)
    requires start <= |roots|
    requires forall i :: 0 <= i < |roots| ==> FaithfulEntries(items, PreOrder(roots[i], None, i))
    ensures FaithfulEntries(items, PreOrderFrom(roots, None, start))
    decreases |roots| - start
  {
    if start < |roots| {
      RootsEntries(roots, start + 1, items);
    }
  }

  /** The current item, as the indices leading to it from the top level. */
  predicate ValidPath(xs: seq<Item>, path: seq<nat>)
    decreases path
  {
    |path| >= 1 && path[0] < |xs| && (|path| == 1 || ValidPath(xs[path[0]].children, path[1..]))
  }

  /** The current item's siblings, itself included: its parent's children, or the top-level items. */
  function Siblings(xs: seq<Item>, path: seq<nat>): (ss: seq<Item>)
    requires ValidPath(xs, path)
    ensures path[|path| - 1] < |ss|
    decreases path
  {
    if |path| == 1 then xs else Siblings(xs[path[0]].children, path[1..])
  }

  /** The forest with the current item's sibling list replaced by `ys`. */
  function WithSiblings(xs: seq<Item>, path: seq<nat>, ys: seq<Item>): seq<Item>
    requires ValidPath(xs, path)
    decreases path
  {
    if |path| == 1 then ys
    else xs[path[0] := xs[path[0]].(children := WithSiblings(xs[path[0]].children, path[1..], ys))]
  }

  /** Siblings `i` and `i + 1` exchanged, each with its whole subtree. */
  function SwapWithNext(s: seq<Item>, i: nat): (r: seq<Item>)
    requires i + 1 < |s|
    ensures |r| == |s| && r[i] == s[i + 1] && r[i + 1] == s[i]
    ensures forall j :: 0 <= j < |s| && j != i && j != i + 1 ==> r[j] == s[j]
  {
    s[i := s[i + 1]][i + 1 := s[i]]
  }

  /** The tree after `_move_item_up` with the given current item (None: no selection). */
  function MovedUp(xs: seq<Item>, selected: Option<seq<nat>>): seq<Item>
    requires selected.Some? ==> ValidPath(xs, selected.value)
  {
    if selected.None? then xs
    else
      var path := selected.value;
      var k := path[|path| - 1];
      if k > 0 then WithSiblings(xs, path, SwapWithNext(Siblings(xs, path), k - 1)) else xs
  }

  /** The tree after `_move_item_down`. */
  function MovedDown(xs: seq<Item>, selected: Option<seq<nat>>): seq<Item>
    requires selected.Some? ==> ValidPath(xs, selected.value)
  {
    if selected.None? then xs
    else
      var path := selected.value;
      var k := path[|path| - 1];
      if k + 1 < |Siblings(xs, path)| then WithSiblings(xs, path, SwapWithNext(Siblings(xs, path), k)) else xs
  }

  /** `takeChild(index)` followed by `insertChild(to, item)`, for a neighbouring `to`, is the swap. */
  lemma TakeInsertSwaps(s: seq<Item>, index: nat, to: nat)
    requires index < |s| && to < |s| && (to + 1 == index || to == index + 1)
    ensures var taken := s[..index] + s[index + 1..];
      taken[..to] + [s[index]] + taken[to..] == SwapWithNext(s, if to < index then to else index)
  {
    var taken := s[..index] + s[index + 1..];
    var r := taken[..to] + [s[index]] + taken[to..];
    var w := SwapWithNext(s, if to < index then to else index);
    assert |r| == |w|;
    forall j | 0 <= j < |r| ensures r[j] == w[j] {
      if j < to {
        assert r[j] == taken[j];
      } else if j > to {
        assert r[j] == taken[j - 1];
      }
    }
  }

  /**
    `_move_item_up`: with no current item, or when it is first among its
    siblings, nothing happens and nothing is sent; otherwise it moves one
    place up and the walk of the new tree is sent to the view model.
   */
  method MoveItemUp(roots: seq<Item>, selected: Option<seq<nat>>) returns (r: seq<Item>, sent: Option<seq<HierarchyEntry>>)
    requires selected.Some? ==> ValidPath(roots, selected.value)
    ensures r == MovedUp(roots, selected)
    ensures sent.Some? <==> selected.Some? && selected.value[|selected.value| - 1] > 0
    ensures sent.Some? ==> sent.value == UpdatedHierarchy(r)
  {
    r, sent := roots, None;
    if selected.None? {
      return;
    }
    var path := selected.value;
    var siblings := Siblings(roots, path);
    var index := path[|path| - 1];
    if index > 0 {
      TakeInsertSwaps(siblings, index, index - 1);
      var itemToMove := siblings[index];
      var taken := siblings[..index] + siblings[index + 1..];
      siblings := taken[..index - 1] + [itemToMove] + taken[index - 1..];
      r := WithSiblings(roots, path, siblings);
      var entries := UpdatePositionHierarchyInViewmodel(r);
      sent := Some(entries);
    }
  }

  /** `_move_item_down`: the mirror image, a no-op for the last sibling. */
  method MoveItemDown(roots: seq<Item>, selected: Option<seq<nat>>) returns (r: seq<Item>, sent: Option<seq<HierarchyEntry>>)
    requires selected.Some? ==> ValidPath(roots, selected.value)
    ensures r == MovedDown(roots, selected)
    ensures sent.Some? <==> selected.Some? && selected.value[|selected.value| - 1] + 1 < |Siblings(roots, selected.value)|
    ensures sent.Some? ==> sent.value == UpdatedHierarchy(r)
  {
    r, sent := roots, None;
    if selected.None? {
      return;
    }
    var path := selected.value;
    var siblings := Siblings(roots, path);
    var index := path[|path| - 1];
    if index < |siblings| - 1 {
      TakeInsertSwaps(siblings, index, index + 1);
      var itemToMove := siblings[index];
      var taken := siblings[..index] + siblings[index + 1..];
      siblings := taken[..index + 1] + [itemToMove] + taken[index + 1..];
      r := WithSiblings(roots, path, siblings);
      var entries := UpdatePositionHierarchyInViewmodel(r);
      sent := Some(entries);
    }
  }

  lemma {:induction false} SiblingsOfWith(xs: seq<Item>, path: seq<nat>, ys: seq<Item>)
    requires ValidPath(xs, path) && |ys| == |Siblings(xs, path)|
    ensures ValidPath(WithSiblings(xs, path, ys), path)
    ensures Siblings(WithSiblings(xs, path, ys), path) == ys
    decreases path
  {
    if |path| > 1 {
      SiblingsOfWith(xs[path[0]].children, path[1..], ys);
    }
  }

  lemma {:induction false} WithOwnSiblings(xs: seq<Item>, path: seq<nat>)
    requires ValidPath(xs, path)
    ensures WithSiblings(xs, path, Siblings(xs, path)) == xs
    decreases path
  {
    if |path| > 1 {
      WithOwnSiblings(xs[path[0]].children, path[1..]);
    }
  }

  lemma {:induction false} WithSiblingsTwice(xs: seq<Item>, path: seq<nat>, ys: seq<Item>, zs: seq<Item>)
    requires ValidPath(xs, path) && |ys| == |Siblings(xs, path)|
    ensures ValidPath(WithSiblings(xs, path, ys), path)
    ensures WithSiblings(WithSiblings(xs, path, ys), path, zs) == WithSiblings(xs, path, zs)
    decreases path
  {
    SiblingsOfWith(xs, path, ys);
    if |path| > 1 {
      WithSiblingsTwice(xs[path[0]].children, path[1..], ys, zs);
    }
  }

  /** Another index among the same siblings addresses the same sibling list. */
  lemma {:induction false} SameLevel(xs: seq<Item>, path: seq<nat>, j: nat, ys: seq<Item>)
    requires ValidPath(xs, path) && j < |Siblings(xs, path)|
    ensures ValidPath(xs, path[|path| - 1 := j])
    ensures Siblings(xs, path[|path| - 1 := j]) == Siblings(xs, path)
    ensures WithSiblings(xs, path[|path| - 1 := j], ys) == WithSiblings(xs, path, ys)
    decreases path
  {
    var p := path[|path| - 1 := j];
    if |path| > 1 {
      assert p[1..] == path[1..][|path| - 2 := j];
      SameLevel(xs[path[0]].children, path[1..], j, ys);
    }
  }

  /**
    A move up changes only the current item's sibling list, where the item
    and the sibling before it trade places, each with its subtree; at the
    first place, or with no current item, nothing changes.
   */
  lemma MoveUpSwapsSiblings(xs: seq<Item>, path: seq<nat>)
    requires ValidPath(xs, path)
    ensures path[|path| - 1] == 0 ==> MovedUp(xs, Some(path)) == xs
    ensures var k, ss, r := path[|path| - 1], Siblings(xs, path), MovedUp(xs, Some(path));
      k > 0 ==> ValidPath(r, path) && Siblings(r, path) == SwapWithNext(ss, k - 1)
    ensures var k, ss, r := path[|path| - 1], Siblings(xs, path), MovedUp(xs, Some(path));
      k > 0 ==> ValidPath(r, path) && Siblings(r, path)[k - 1] == ss[k] && Siblings(r, path)[k] == ss[k - 1]
    ensures var k, ss, r := path[|path| - 1], Siblings(xs, path), MovedUp(xs, Some(path));
      k > 0 ==> ValidPath(r, path) && multiset(Siblings(r, path)) == multiset(ss)
    ensures MovedUp(xs, None) == xs
  {
    var k := path[|path| - 1];
    assert MovedUp(xs, None) == xs;
    hide *;
    MovedUpShape(xs, path);
    if k > 0 {
      MovedUpSiblings(xs, path);
      SwapKeepsMultiset(Siblings(xs, path), k - 1);
    }
  }

  /** The sibling list a move up leaves at the current item's level. */
  lemma MovedUpSiblings(xs: seq<Item>, path: seq<nat>)
    requires ValidPath(xs, path) && path[|path| - 1] > 0
    ensures ValidPath(MovedUp(xs, Some(path)), path)
    ensures Siblings(MovedUp(xs, Some(path)), path) == SwapWithNext(Siblings(xs, path), path[|path| - 1] - 1)
  {
    MovedUpShape(xs, path);
    SiblingsOfWith(xs, path, SwapWithNext(Siblings(xs, path), path[|path| - 1] - 1));
  }

  lemma SwapKeepsMultiset(s: seq<Item>, i: nat)
    requires i + 1 < |s|
    ensures multiset(SwapWithNext(s, i)) == multiset(s)
  {
    assert s == s[..i] + [s[i], s[i + 1]] + s[i + 2..];
    assert SwapWithNext(s, i) == s[..i] + [s[i + 1], s[i]] + s[i + 2..];
  }

  /** The item at a path, with its subtree. */
  function ItemAt(xs: seq<Item>, q: seq<nat>): Item
    requires ValidPath(xs, q)
  {
    Siblings(xs, q)[q[|q| - 1]]
  }

  /**
    Replacing one sibling list leaves every item that lies off the path to it
    as it was: a path `q` that leaves `path` at index `j`, above the sibling
    level, still leads to the same item with the same subtree.
   */
  lemma {:induction false} WithSiblingsElsewhere(xs: seq<Item>, path: seq<nat>, ys: seq<Item>, q: seq<nat>, j: nat)
    requires ValidPath(xs, path) && ValidPath(xs, q)
    requires j < |q| && j + 1 < |path| && q[j] != path[j]
    ensures ValidPath(WithSiblings(xs, path, ys), q)
    ensures ItemAt(WithSiblings(xs, path, ys), q) == ItemAt(xs, q)
    decreases path
  {
    var r := WithSiblings(xs, path, ys);
    if q[0] != path[0] {
      assert r[q[0]] == xs[q[0]];
      if |q| > 1 {
        assert Siblings(r, q) == Siblings(xs[q[0]].children, q[1..]);
      }
    } else {
      WithSiblingsElsewhere(xs[path[0]].children, path[1..], ys, q[1..], j - 1);
    }
  }

  /** Every non-empty prefix of a path leads to an ancestor. */
  lemma {:induction false} PrefixIsValid(xs: seq<Item>, path: seq<nat>, n: nat)
    requires ValidPath(xs, path) && 1 <= n <= |path|
    ensures ValidPath(xs, path[..n])
    decreases path
  {
    if n > 1 {
      assert path[..n][1..] == path[1..][..n - 1];
      PrefixIsValid(xs[path[0]].children, path[1..], n - 1);
    }
  }

  /** Replacing a sibling list keeps every ancestor of the current item in place, with its own row. */
  lemma {:induction false} WithSiblingsKeepsAncestors(xs: seq<Item>, path: seq<nat>, ys: seq<Item>, n: nat)
    requires ValidPath(xs, path) && 1 <= n < |path|
    ensures ValidPath(xs, path[..n])
    ensures ValidPath(WithSiblings(xs, path, ys), path[..n])
    ensures ItemAt(WithSiblings(xs, path, ys), path[..n]).node == ItemAt(xs, path[..n]).node
    decreases path
  {
    PrefixIsValid(xs, path, n);
    if n > 1 {
      assert path[..n][1..] == path[1..][..n - 1];
      WithSiblingsKeepsAncestors(xs[path[0]].children, path[1..], ys, n - 1);
    }
  }

  /**
    The frame of a move up: an item off the path to the current item keeps
    its place and its subtree. With `MoveUpKeepsAncestors` and
    `MoveUpSwapsSiblings` this says the current sibling list is the only
    thing that changes.
   */
  lemma MoveUpKeepsOtherItems(xs: seq<Item>, path: seq<nat>, q: seq<nat>, j: nat)
    requires ValidPath(xs, path) && ValidPath(xs, q)
    requires j < |q| && j + 1 < |path| && q[j] != path[j]
    ensures ValidPath(MovedUp(xs, Some(path)), q) && ItemAt(MovedUp(xs, Some(path)), q) == ItemAt(xs, q)
  {
    var k := path[|path| - 1];
    MovedUpShape(xs, path);
    hide *;
    if k > 0 {
      WithSiblingsElsewhere(xs, path, SwapWithNext(Siblings(xs, path), k - 1), q, j);
    }
  }

  /** The same frame for a move down. */
  lemma MoveDownKeepsOtherItems(xs: seq<Item>, path: seq<nat>, q: seq<nat>, j: nat)
    requires ValidPath(xs, path) && ValidPath(xs, q)
    requires j < |q| && j + 1 < |path| && q[j] != path[j]
    ensures ValidPath(MovedDown(xs, Some(path)), q) && ItemAt(MovedDown(xs, Some(path)), q) == ItemAt(xs, q)
  {
    var k := path[|path| - 1];
    MovedDownShape(xs, path);
    hide *;
    if k + 1 < |Siblings(xs, path)| {
      WithSiblingsElsewhere(xs, path, SwapWithNext(Siblings(xs, path), k), q, j);
    }
  }

  /** A move up keeps every ancestor of the current item in place, with its own row. */
  lemma MoveUpKeepsAncestors(xs: seq<Item>, path: seq<nat>, n: nat)
    requires ValidPath(xs, path) && 1 <= n < |path|
    ensures ValidPath(xs, path[..n]) && ValidPath(MovedUp(xs, Some(path)), path[..n])
    ensures ItemAt(MovedUp(xs, Some(path)), path[..n]).node == ItemAt(xs, path[..n]).node
  {
    var k := path[|path| - 1];
    PrefixIsValid(xs, path, n);
    if k > 0 {
      WithSiblingsKeepsAncestors(xs, path, SwapWithNext(Siblings(xs, path), k - 1), n);
    }
  }

  /** The same for a move down. */
  lemma MoveDownKeepsAncestors(xs: seq<Item>, path: seq<nat>, n: nat)
    requires ValidPath(xs, path) && 1 <= n < |path|
    ensures ValidPath(xs, path[..n]) && ValidPath(MovedDown(xs, Some(path)), path[..n])
    ensures ItemAt(MovedDown(xs, Some(path)), path[..n]).node == ItemAt(xs, path[..n]).node
  {
    var k := path[|path| - 1];
    PrefixIsValid(xs, path, n);
    if k + 1 < |Siblings(xs, path)| {
      WithSiblingsKeepsAncestors(xs, path, SwapWithNext(Siblings(xs, path), k), n);
    }
  }

  /** Moving an item up and then moving it back down restores the tree. */
  lemma MoveDownUndoesMoveUp(xs: seq<Item>, path: seq<nat>)
    requires ValidPath(xs, path) && path[|path| - 1] > 0
    ensures ValidPath(MovedUp(xs, Some(path)), path[|path| - 1 := path[|path| - 1] - 1])
    ensures MovedDown(MovedUp(xs, Some(path)), Some(path[|path| - 1 := path[|path| - 1] - 1])) == xs
  {
    var k := path[|path| - 1];
    var ss := Siblings(xs, path);
    var sw := SwapWithNext(ss, k - 1);
    var m := MovedUp(xs, Some(path));
    SiblingsOfWith(xs, path, sw);
    SameLevel(m, path, k - 1, ss);
    assert SwapWithNext(sw, k - 1) == ss;
    WithSiblingsTwice(xs, path, sw, ss);
    WithOwnSiblings(xs, path);
  }

  /** Moving an item down and then moving it back up restores the tree. */
  lemma MoveUpUndoesMoveDown(xs: seq<Item>, path: seq<nat>)
    requires ValidPath(xs, path) && path[|path| - 1] + 1 < |Siblings(xs, path)|
    ensures ValidPath(MovedDown(xs, Some(path)), path[|path| - 1 := path[|path| - 1] + 1])
    ensures MovedUp(MovedDown(xs, Some(path)), Some(path[|path| - 1 := path[|path| - 1] + 1])) == xs
  {
    var k := path[|path| - 1];
    var ss := Siblings(xs, path);
    var sw := SwapWithNext(ss, k);
    var m := MovedDown(xs, Some(path));
    SiblingsOfWith(xs, path, sw);
    SameLevel(m, path, k + 1, ss);
    assert SwapWithNext(sw, k) == ss;
    WithSiblingsTwice(xs, path, sw, ss);
    WithOwnSiblings(xs, path);
  }

  lemma FlattenAllCons(x: Item, xs: seq<Item>)
    ensures FlattenAll([x] + xs) == Flatten(x) + FlattenAll(xs)
  {
    assert ([x] + xs)[0] == x && ([x] + xs)[1..] == xs;
  }

  lemma AppendAssociative(a: seq<TreeNode>, b: seq<TreeNode>, c: seq<TreeNode>)
    ensures a + (b + c) == a + b + c
  {
  }

  lemma FlattenAllSplit(xs: seq<Item>, i: nat)
    requires i < |xs|
    ensures FlattenAll(xs) == FlattenAll(xs[..i]) + Flatten(xs[i]) + FlattenAll(xs[i + 1..])
  {
    hide FlattenAll, Flatten;
    var a, x, b := xs[..i], xs[i], xs[i + 1..];
    assert xs == a + ([x] + b);
    FlattenAllAppend(a, [x] + b);
    FlattenAllCons(x, b);
    AppendAssociative(FlattenAll(a), Flatten(x), FlattenAll(b));
  }

  lemma {:induction false} WithSiblingsRows(xs: seq<Item>, path: seq<nat>, ys: seq<Item>)
    requires ValidPath(xs, path)
    requires multiset(FlattenAll(ys)) == multiset(FlattenAll(Siblings(xs, path)))
    ensures multiset(FlattenAll(WithSiblings(xs, path, ys))) == multiset(FlattenAll(xs))
    decreases path
  {
    if |path| > 1 {
      var i := path[0];
      var x := xs[i];
      var inner := WithSiblings(x.children, path[1..], ys);
      WithSiblingsRows(x.children, path[1..], ys);
      var y := x.(children := inner);
      var r := xs[i := y];
      FlattenAllSplit(xs, i);
      FlattenAllSplit(r, i);
      assert r[..i] == xs[..i] && r[i + 1..] == xs[i + 1..];
    }
  }

  /** Swapping two neighbours in one sibling list keeps every row of the tree. */
  lemma SwapLevelKeepsRows(xs: seq<Item>, path: seq<nat>, j: nat)
    requires ValidPath(xs, path) && j + 1 < |Siblings(xs, path)|
    ensures multiset(FlattenAll(WithSiblings(xs, path, SwapWithNext(Siblings(xs, path), j)))) == multiset(FlattenAll(xs))
  {
    SwapRows(Siblings(xs, path), j);
    WithSiblingsRows(xs, path, SwapWithNext(Siblings(xs, path), j));
  }

  lemma MovedUpShape(xs: seq<Item>, path: seq<nat>)
    requires ValidPath(xs, path)
    ensures path[|path| - 1] > 0 ==>
      MovedUp(xs, Some(path)) == WithSiblings(xs, path, SwapWithNext(Siblings(xs, path), path[|path| - 1] - 1))
    ensures path[|path| - 1] == 0 ==> MovedUp(xs, Some(path)) == xs
  {
  }

  lemma MovedDownShape(xs: seq<Item>, path: seq<nat>)
    requires ValidPath(xs, path)
    ensures path[|path| - 1] + 1 < |Siblings(xs, path)| ==>
      MovedDown(xs, Some(path)) == WithSiblings(xs, path, SwapWithNext(Siblings(xs, path), path[|path| - 1]))
    ensures path[|path| - 1] + 1 >= |Siblings(xs, path)| ==> MovedDown(xs, Some(path)) == xs
  {
  }

  /** A move up keeps every row of the tree: only the order of one sibling list changes. */
  lemma MoveUpKeepsRows(xs: seq<Item>, path: seq<nat>)
    requires ValidPath(xs, path)
    ensures multiset(FlattenAll(MovedUp(xs, Some(path)))) == multiset(FlattenAll(xs))
  {
    MovedUpShape(xs, path);
    hide *;
    if path[|path| - 1] > 0 {
      SwapLevelKeepsRows(xs, path, path[|path| - 1] - 1);
    }
  }

  /** A move down keeps every row of the tree. */
  lemma MoveDownKeepsRows(xs: seq<Item>, path: seq<nat>)
    requires ValidPath(xs, path)
    ensures multiset(FlattenAll(MovedDown(xs, Some(path)))) == multiset(FlattenAll(xs))
  {
    MovedDownShape(xs, path);
    hide MovedDown, FlattenAll;
    if path[|path| - 1] + 1 < |Siblings(xs, path)| {
      SwapLevelKeepsRows(xs, path, path[|path| - 1]);
    }
  }

  lemma ExchangeKeepsRows(s: seq<Item>, w: seq<Item>, a: seq<Item>, x: Item, y: Item, c: seq<Item>)
    requires s == a + ([x] + ([y] + c)) && w == a + ([y] + ([x] + c))
    ensures multiset(FlattenAll(w)) == multiset(FlattenAll(s))
  {
    FlattenAllAppend(a, [x] + ([y] + c));
    FlattenAllCons(x, [y] + c);
    FlattenAllCons(y, c);
    FlattenAllAppend(a, [y] + ([x] + c));
    FlattenAllCons(y, [x] + c);
    FlattenAllCons(x, c);
  }

  lemma SwapShape(s: seq<Item>, i: nat)
    requires i + 1 < |s|
    ensures s == s[..i] + ([s[i]] + ([s[i + 1]] + s[i + 2..]))
    ensures SwapWithNext(s, i) == s[..i] + ([s[i + 1]] + ([s[i]] + s[i + 2..]))
  {
  }

  lemma SwapRows(s: seq<Item>, i: nat)
    requires i + 1 < |s|
    ensures multiset(FlattenAll(SwapWithNext(s, i))) == multiset(FlattenAll(s))
  {
    SwapShape(s, i);
    ExchangeKeepsRows(s, SwapWithNext(s, i), s[..i], s[i], s[i + 1], s[i + 2..]);
  }
}
