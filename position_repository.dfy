/** The queries only `PositionRepository` has: the name search and the two rank orders. */
module PositionRepository {
  import opened Wrappers
  import opened Entities
  import opened Sorting
  import opened Text

  /** `Position.name.ilike(f"%{term}%")`: a case-insensitive substring test. */
  predicate NameMatches(n: TreeNode, term: string)
  {
    Contains(Lower(n.name), Lower(term))
  }

  /** The rows whose name matches, in table order. */
  function Matching(t: Table, term: string): (r: Table)
    ensures forall n :: n in r <==> n in t && NameMatches(n, term)
    ensures multiset(r) <= multiset(t)
  {
    if t == [] then []
    else
      assert forall n :: n in t <==> n == t[0] || n in t[1..];
      assert t == [t[0]] + t[1..];
      (if NameMatches(t[0], term) then [t[0]] else []) + Matching(t[1..], term)
  }

  /** `parent_id ASC` with SQLite's NULLs first. */
  predicate ParentLt(a: Option<int>, b: Option<int>)
  {
    match (a, b)
    case (None, Some(_)) => true
    case (Some(x), Some(y)) => x < y
    case _ => false
  }

  /** `rank ASC` with SQLite's NULLs first (a NULL sorts below every value). */
  predicate RankAscLe(a: Option<int>, b: Option<int>)
  {
    match (a, b)
    case (None, _) => true
    case (Some(x), Some(y)) => x <= y
    case (Some(_), None) => false
  }

  /** `order_by(parent_id.asc(), rank.asc())`. */
  predicate ParentRankLe(a: TreeNode, b: TreeNode)
  {
    ParentLt(a.parentId, b.parentId) || (a.parentId == b.parentId && RankAscLe(a.rank, b.rank))
  }

  /** `order_by(rank.desc())`: the reverse of `rank ASC`, so NULLs come last. */
  predicate RankDescLe(a: TreeNode, b: TreeNode)
  {
    RankAscLe(b.rank, a.rank)
  }

  lemma ParentRankLeIsPreorder()
    ensures TotalPreorder(ParentRankLe)
  {
  }

  lemma RankDescLeIsPreorder()
    ensures TotalPreorder(RankDescLe)
  {
  }

  /**
    `get_all_sorted`: with a non-empty search term only the matching rows,
    otherwise every row; grouped by parent (roots first) and by rank within a
    parent.
   */
  function GetAllSorted(t: Table, term: Option<string>): (r: Table)
    ensures term.None? || term.value == [] ==> multiset(r) == multiset(t)
    ensures term.Some? && term.value != [] ==> multiset(r) == multiset(Matching(t, term.value))
    ensures forall n :: n in r <==> n in t && (term.Some? && term.value != [] ==> NameMatches(n, term.value))
    ensures SortedBy(r, ParentRankLe)
  {
    var rows := if term.Some? && term.value != [] then Matching(t, term.value) else t;
    ParentRankLeIsPreorder();
    var r := SortBy(rows, ParentRankLe);
    SameElements(r, rows);
    r
  }

  /** `get_all_sorted_by_rank`: every row, ranked rows first with rank non-increasing, then the NULL ranks. */
  function GetAllSortedByRank(t: Table): (r: Table)
    ensures multiset(r) == multiset(t)
    ensures forall i, j :: 0 <= i < j < |r| && r[j].rank.Some? ==> r[i].rank.Some? && r[i].rank.value >= r[j].rank.value
  {
    RankDescLeIsPreorder();
    SortBy(t, RankDescLe)
  }
}
