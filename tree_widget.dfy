/**
  The tree shown by the position and region list widgets, without Qt: an
  item is a value holding its row, its `hidden` flag and its children in
  display order. `display_items` turns the flat row list into roots and
  child lists; the search box hides every item that neither matches nor has
  a matching descendant.
 */
module TreeWidget {
  import opened Wrappers
  import opened Entities
  import opened Text
  import opened Hierarchy

  /** A `QTreeWidgetItem`: the row stored under `Qt.UserRole`, `isHidden()`, and its children. */
  datatype Item = Item(node: TreeNode, hidden: bool, children: seq<Item>)

  /** `if position.parent_id and position.parent_id in position_items`: a truthy parent that is in the list. */
  predicate PlacedAsChild(all: Table, n: TreeNode)
  {
    n.parentId.Some? && n.parentId.value != 0 && n.parentId.value in Ids(all)
  }

  /** The ids of the rows of `ps` that go to the top level, in list order. */
  function RootsOf(ps: Table, all: Table): seq<int>
  {
    if ps == [] then [] else RootsOf(ps[..|ps| - 1], all) + (if PlacedAsChild(all, ps[|ps| - 1]) then [] else [ps[|ps| - 1].id])
  }

  /** The ids of the rows of `ps` added under the item of `p`, in list order. */
  function ChildrenOf(ps: Table, all: Table, p: int): seq<int>
  {
    if ps == [] then []
    else ChildrenOf(ps[..|ps| - 1], all, p) + (if PlacedAsChild(all, ps[|ps| - 1]) && ps[|ps| - 1].parentId == Some(p) then [ps[|ps| - 1].id] else [])
  }

  /** The top level holds exactly the ids of the rows not placed as children. */
  lemma {:induction false} RootsOfMembers(ps: Table, all: Table)
    ensures forall x :: x in RootsOf(ps, all) <==> exists n :: n in ps && n.id == x && !PlacedAsChild(all, n)
  {
    if ps != [] {
      RootsOfMembers(ps[..|ps| - 1], all);
      assert forall m :: m in ps <==> m == ps[|ps| - 1] || m in ps[..|ps| - 1];
    }
  }

  /** The children of `p` are exactly the ids of the rows placed under `p`. */
  lemma {:induction false} ChildrenOfMembers(ps: Table, all: Table, p: int)
    ensures forall x :: x in ChildrenOf(ps, all, p) <==> exists n :: n in ps && n.id == x && PlacedAsChild(all, n) && n.parentId == Some(p)
  {
    if ps != [] {
      ChildrenOfMembers(ps[..|ps| - 1], all, p);
      assert forall m :: m in ps <==> m == ps[|ps| - 1] || m in ps[..|ps| - 1];
    }
  }

  /** The lists `display_items` has built once the first `i` rows are linked. */
  ghost predicate Linked(items: Table, i: nat, kids: map<int, seq<int>>, roots: seq<int>)
    requires i <= |items|
  {
    && kids.Keys == Ids(items)
    && (forall p :: p in kids ==> kids[p] == ChildrenOf(items[..i], items, p))
    && roots == RootsOf(items[..i], items)
  }

  /** Linking one more row appends its id to its parent's children, or to the top level. */
  lemma LinkedNext(items: Table, i: nat, kids: map<int, seq<int>>, roots: seq<int>)
    requires i < |items| && Linked(items, i, kids, roots)
    ensures var n := items[i];
      if PlacedAsChild(items, n) then Linked(items, i + 1, kids[n.parentId.value := kids[n.parentId.value] + [n.id]], roots)
      else Linked(items, i + 1, kids, roots + [n.id])
  {
    assert items[..i + 1][..i] == items[..i];
  }

  /** The top-level items `display_items` adds. */
  function RootIds(items: Table): seq<int>
  {
    RootsOf(items, items)
  }

  /** The children `display_items` gives the item of `p`. */
  function WidgetChildIds(items: Table, p: int): seq<int>
  {
    ChildrenOf(items, items, p)
  }

  predicate NoDuplicates(s: seq<int>)
  {
    forall i, j :: 0 <= i < j < |s| ==> s[i] != s[j]
  }

  lemma {:induction false} RootsOfNoDuplicates(ps: Table, all: Table)
    requires UniqueIds(ps)
    ensures NoDuplicates(RootsOf(ps, all))
  {
    if ps != [] {
      var init := ps[..|ps| - 1];
      RootsOfNoDuplicates(init, all);
      RootsOfMembers(init, all);
      var n := ps[|ps| - 1];
      if !PlacedAsChild(all, n) {
        assert n.id !in RootsOf(init, all) by {
          forall m | m in init ensures m.id != n.id {
            var i :| 0 <= i < |init| && init[i] == m;
            assert ps[i] == m;
          }
        }
      }
    }
  }

  lemma {:induction false} ChildrenOfNoDuplicates(ps: Table, all: Table, p: int)
    requires UniqueIds(ps)
    ensures NoDuplicates(ChildrenOf(ps, all, p))
  {
    if ps != [] {
      var init := ps[..|ps| - 1];
      ChildrenOfNoDuplicates(init, all, p);
      ChildrenOfMembers(init, all, p);
      var n := ps[|ps| - 1];
      if PlacedAsChild(all, n) && n.parentId == Some(p) {
        assert n.id !in ChildrenOf(init, all, p) by {
          forall m | m in init ensures m.id != n.id {
            var i :| 0 <= i < |init| && init[i] == m;
            assert ps[i] == m;
          }
        }
      }
    }
  }

  /**
    Every row is placed exactly once: at the top level when its parent is
    null, 0 or not in the list, otherwise under its parent's item and under
    no other; no list holds an id twice.
   */
  lemma PlacedOnce(items: Table, n: TreeNode)
    requires UniqueIds(items) && n in items
    ensures n.id in RootIds(items) <==> !PlacedAsChild(items, n)
    ensures forall p :: n.id in WidgetChildIds(items, p) <==> PlacedAsChild(items, n) && n.parentId == Some(p)
    ensures NoDuplicates(RootIds(items)) && forall p :: NoDuplicates(WidgetChildIds(items, p))
  {
    RootsOfNoDuplicates(items, items);
    RootsOfMembers(items, items);
    forall p ensures NoDuplicates(WidgetChildIds(items, p)) && (n.id in WidgetChildIds(items, p) <==> exists m :: m in items && m.id == n.id && PlacedAsChild(items, m) && m.parentId == Some(p)) {
      ChildrenOfNoDuplicates(items, items, p);
      ChildrenOfMembers(items, items, p);
    }
    forall m | m in items && m.id == n.id ensures m == n {
      var i :| 0 <= i < |items| && items[i] == m;
      var j :| 0 <= j < |items| && items[j] == n;
      assert i == j;
    }
  }

  /** The first loop of `display_items`: one item per row, keyed by id, with no children yet. */
  method CreateItems(items: Table) returns (nodes: map<int, TreeNode>, kids: map<int, seq<int>>)
    requires UniqueIds(items)
    ensures nodes.Keys == Ids(items) && forall n :: n in items ==> nodes[n.id] == n
    ensures kids.Keys == Ids(items) && forall p :: p in kids ==> kids[p] == []
  {
    nodes, kids := map[], map[];
    var i := 0;
    while i < |items|
      invariant 0 <= i <= |items|
      invariant nodes.Keys == kids.Keys
      invariant forall j :: 0 <= j < i ==> items[j].id in nodes && nodes[items[j].id] == items[j]
      invariant forall x :: x in nodes ==> exists j :: 0 <= j < i && items[j].id == x
      invariant forall p :: p in kids ==> kids[p] == []
    {
      nodes := nodes[items[i].id := items[i]];
      kids := kids[items[i].id := []];
      i := i + 1;
    }
    forall x | x in Ids(items) ensures x in nodes {
      var n :| n in items && n.id == x;
      var j :| 0 <= j < |items| && items[j] == n;
    }
    forall x | x in nodes ensures x in Ids(items) {
      var j :| 0 <= j < |items| && items[j].id == x;
      assert items[j] in items;
    }
    forall n | n in items ensures nodes[n.id] == n {
      var j :| 0 <= j < |items| && items[j] == n;
    }
  }

  /** The second loop of `display_items`: each row's item goes under its parent's item or to the top level. */
  method LinkItems(items: Table, nodes: map<int, TreeNode>, kids0: map<int, seq<int>>) returns (kids: map<int, seq<int>>, roots: seq<int>)
    requires nodes.Keys == Ids(items) && kids0.Keys == Ids(items) && forall p :: p in kids0 ==> kids0[p] == []
    ensures kids.Keys == Ids(items) && forall p :: p in kids ==> kids[p] == WidgetChildIds(items, p)
    ensures roots == RootIds(items)
  {
    kids, roots := kids0, [];
    assert items[..0] == [];
    assert Linked(items, 0, kids, roots);
    var i := 0;
    {
      // The loop only chains the step lemma.
      hide Linked;
      while i < |items|
        invariant 0 <= i <= |items| && Linked(items, i, kids, roots)
      {
        var n := items[i];
        LinkedNext(items, i, kids, roots);
        if n.parentId.Some? && n.parentId.value != 0 && n.parentId.value in nodes {
          var p := n.parentId.value;
          kids := kids[p := kids[p] + [n.id]];
        } else {
          roots := roots + [n.id];
        }
        i := i + 1;
      }
    }
    assert items[..|items|] == items;
  }

  /**
    `display_items`: make one item per row, then append each row's item to
    its parent's children or to the top level, in list order.
   */
  method DisplayItems(items: Table) returns (nodes: map<int, TreeNode>, kids: map<int, seq<int>>, roots: seq<int>)
    requires UniqueIds(items)
    ensures nodes.Keys == Ids(items) && forall n :: n in items ==> nodes[n.id] == n
    ensures kids.Keys == Ids(items) && forall p :: p in kids ==> kids[p] == WidgetChildIds(items, p)
    ensures roots == RootIds(items)
  {
    var empty;
    nodes, empty := CreateItems(items);
    kids, roots := LinkItems(items, nodes, empty);
  }

  /** A child placed by `display_items` has the item's row as its parent. */
  lemma WidgetChildIsChild(items: Table, x: int, c: int)
    requires UniqueIds(items) && c in WidgetChildIds(items, x)
    ensures ParentOf(items, c) == Some(x) && c in Ids(items)
  {
    ChildrenOfMembers(items, items, x);
    var n :| n in items && n.id == c && PlacedAsChild(items, n) && n.parentId == Some(x);
    FindUnique(items, n);
  }

  /** The subtree `display_items` builds under the item of row `x`; every new item is shown. */
  function Build(items: Table, x: int): (r: Item)
    requires UniqueIds(items) && Acyclic(items) && x in Ids(items)
    ensures r.node.id == x && r.node in items
    decreases |Descendants(items, x)|
  {
    var cs := WidgetChildIds(items, x);
    assert forall c :: c in cs ==> c in Ids(items) && |Descendants(items, c)| < |Descendants(items, x)| by {
      forall c | c in cs ensures c in Ids(items) && |Descendants(items, c)| < |Descendants(items, x)| {
        WidgetChildIsChild(items, x, c);
        ChildShrinks(items, x, c);
      }
    }
    Item(Find(items, x).value, false, seq(|cs|, i requires 0 <= i < |cs| => Build(items, cs[i])))
  }

  /** The whole tree `display_items` shows. */
  function BuildForest(items: Table): (r: seq<Item>)
    requires UniqueIds(items) && Acyclic(items)
    ensures |r| == |RootIds(items)|
  {
    var rs := RootIds(items);
    RootsOfMembers(items, items);
    assert forall x :: x in rs ==> x in Ids(items);
    seq(|rs|, i requires 0 <= i < |rs| => Build(items, rs[i]))
  }

  /** The rows of a subtree in pre-order. */
  function Flatten(x: Item): (ns: seq<TreeNode>)
    ensures |ns| >= 1 && ns[0] == x.node
    decreases x
  {
    [x.node] + FlattenAll(x.children)
  }

  /** The rows of a list of subtrees in pre-order. */
  function FlattenAll(xs: seq<Item>): seq<TreeNode>
    decreases xs
  {
    if xs == [] then [] else Flatten(xs[0]) + FlattenAll(xs[1..])
  }

  /** `search_text in item.text(0).lower()`: column 0 holds the name. */
  predicate SelfMatch(x: Item, searchText: string)
  {
    Contains(Lower(x.node.name), searchText)
  }

  /** The item or one of its descendants matches. */
  predicate AnyMatch(x: Item, searchText: string)
    decreases x
  {
    SelfMatch(x, searchText) || exists i :: 0 <= i < |x.children| && AnyMatch(x.children[i], searchText)
  }

  /** The subtree after `_apply_filter_recursive`: each item hidden unless it or a descendant matches. */
  function Filtered(x: Item, searchText: string): Item
    decreases x
  {
    Item(x.node, !AnyMatch(x, searchText),
         seq(|x.children|, i requires 0 <= i < |x.children| => Filtered(x.children[i], searchText)))
  }

  /**
    `_apply_filter_recursive`: recurse into every child, then set `hidden`
    to the negation of what it returns, which is whether the item or any
    descendant matches.
   */
  method ApplyFilterRecursive(x: Item, searchText: string) returns (r: Item, isVisible: bool)
    ensures r == Filtered(x, searchText)
    ensures isVisible == AnyMatch(x, searchText) && r.hidden == !isVisible
    decreases x
  {
    var itemText := Lower(x.node.name);
    var selfMatch := Contains(itemText, searchText);
    var childMatch := false;
    var cs: seq<Item> := [];
    var i := 0;
    while i < |x.children|
      invariant 0 <= i <= |x.children|
      invariant |cs| == i && forall j :: 0 <= j < i ==> cs[j] == Filtered(x.children[j], searchText)
      invariant childMatch <==> exists j :: 0 <= j < i && AnyMatch(x.children[j], searchText)
    {
      var c, v := ApplyFilterRecursive(x.children[i], searchText);
      if v {
        childMatch := true;
      }
      cs := cs + [c];
      i := i + 1;
    }
    isVisible := selfMatch || childMatch;
    r := Item(x.node, !isVisible, cs);
  }

  /** `_filter_changed`: lower-case the search box text and filter every top-level item. */
  method FilterChanged(roots: seq<Item>, text: string) returns (r: seq<Item>)
    ensures |r| == |roots| && forall i :: 0 <= i < |roots| ==> r[i] == Filtered(roots[i], Lower(text))
  {
    var searchText := Lower(text);
    r := roots;
    var i := 0;
    while i < |roots|
      invariant 0 <= i <= |roots| && |r| == |roots|
      invariant forall j :: 0 <= j < i ==> r[j] == Filtered(roots[j], searchText)
    {
      var item, _ := ApplyFilterRecursive(roots[i], searchText);
      r := r[i := item];
      i := i + 1;
    }
  }

  /** Some row in `ns` has a lower-cased name containing `searchText`. */
  predicate SomeMatch(ns: seq<TreeNode>, searchText: string)
  {
    exists k :: 0 <= k < |ns| && Contains(Lower(ns[k].name), searchText)
  }

  lemma SomeMatchAppend(a: seq<TreeNode>, b: seq<TreeNode>, searchText: string)
    ensures SomeMatch(a + b, searchText) <==> SomeMatch(a, searchText) || SomeMatch(b, searchText)
  {
    if SomeMatch(a + b, searchText) {
      var k :| 0 <= k < |a + b| && Contains(Lower((a + b)[k].name), searchText);
      if k >= |a| {
        assert b[k - |a|] == (a + b)[k];
      }
    }
    if SomeMatch(a, searchText) {
      var k :| 0 <= k < |a| && Contains(Lower(a[k].name), searchText);
      assert (a + b)[k] == a[k];
    }
    if SomeMatch(b, searchText) {
      var k :| 0 <= k < |b| && Contains(Lower(b[k].name), searchText);
      assert (a + b)[|a| + k] == b[k];
    }
  }

  /** An item is visible exactly when some row of its subtree, itself included, matches. */
  lemma {:induction false} AnyMatchIffSubtreeMatches(x: Item, searchText: string)
    ensures AnyMatch(x, searchText) <==> SomeMatch(Flatten(x), searchText)
    decreases x
  {
    SomeMatchAppend([x.node], FlattenAll(x.children), searchText);
    AnyChildMatchIffMatches(x.children, searchText);
  }

  lemma {:induction false} AnyChildMatchIffMatches(xs: seq<Item>, searchText: string)
    ensures (exists i :: 0 <= i < |xs| && AnyMatch(xs[i], searchText)) <==> SomeMatch(FlattenAll(xs), searchText)
    decreases xs
  {
    if xs != [] {
      AnyMatchIffSubtreeMatches(xs[0], searchText);
      AnyChildMatchIffMatches(xs[1..], searchText);
      SomeMatchAppend(Flatten(xs[0]), FlattenAll(xs[1..]), searchText);
      if exists i :: 0 <= i < |xs| && AnyMatch(xs[i], searchText) {
        var i :| 0 <= i < |xs| && AnyMatch(xs[i], searchText);
        if i > 0 {
          assert xs[1..][i - 1] == xs[i];
        }
      }
      if exists i :: 0 <= i < |xs[1..]| && AnyMatch(xs[1..][i], searchText) {
        var i :| 0 <= i < |xs[1..]| && AnyMatch(xs[1..][i], searchText);
        assert xs[i + 1] == xs[1..][i];
      }
    }
  }

  /** After filtering, an item is hidden exactly when no row of its subtree matches. */
  lemma FilteredHiddenIff(x: Item, searchText: string)
    ensures Filtered(x, searchText).hidden <==> !SomeMatch(Flatten(x), searchText)
  {
    AnyMatchIffSubtreeMatches(x, searchText);
  }

  /** A shown item never sits under a hidden one. */
  lemma VisibleChildVisibleParent(x: Item, searchText: string, i: nat)
    requires i < |x.children|
    requires !Filtered(x, searchText).children[i].hidden
    ensures !Filtered(x, searchText).hidden
  {
  }

  /** Every item of the subtree is shown. */
  predicate AllShown(x: Item)
    decreases x
  {
    !x.hidden && forall i :: 0 <= i < |x.children| ==> AllShown(x.children[i])
  }

  /** An empty search box shows every item. */
  lemma {:induction false} EmptySearchShowsAll(x: Item)
    ensures AllShown(Filtered(x, ""))
    decreases x
  {
    assert OccursAt(Lower(x.node.name), "", 0);
    forall i | 0 <= i < |x.children| ensures AllShown(Filtered(x, "").children[i]) {
      EmptySearchShowsAll(x.children[i]);
    }
  }

  /** Filtering only sets flags: the rows and their order stay the same. */
  lemma {:induction false} FilterKeepsRows(x: Item, searchText: string)
    ensures Flatten(Filtered(x, searchText)) == Flatten(x)
    decreases x
  {
    FilterKeepsRowsAll(x.children, Filtered(x, searchText).children, searchText);
  }

  lemma {:induction false} FilterKeepsRowsAll(xs: seq<Item>, ys: seq<Item>, searchText: string)
    requires |ys| == |xs| && forall i :: 0 <= i < |xs| ==> ys[i] == Filtered(xs[i], searchText)
    ensures FlattenAll(ys) == FlattenAll(xs)
    decreases xs
  {
    if xs != [] {
      FilterKeepsRows(xs[0], searchText);
      FilterKeepsRowsAll(xs[1..], ys[1..], searchText);
    }
  }
}
