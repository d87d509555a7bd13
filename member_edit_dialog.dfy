/**
  The staged position table of `MemberEditDialog`: rows of (position name,
  primary radio button) edited in memory. The radio buttons share one
  exclusive `QButtonGroup`, so checking one unchecks the others; the dialog
  adds, removes and loads rows so that a non-empty table keeps exactly one
  primary row, and checks that before handing the form data back.
 */
module MemberEditDialog {
  import opened Wrappers

  /** A table row: the name in column 0 and whether its radio button is checked. */
  datatype Row = Row(name: string, isPrimary: bool)

  /** What `load_data` receives and `get_form_data` returns. */
  datatype FormData = FormData(name: string, phone: string, positions: seq<Row>)

  function PrimaryCount(rows: seq<Row>): (n: nat)
    ensures n <= |rows|
  {
    if rows == [] then 0 else PrimaryCount(rows[..|rows| - 1]) + (if rows[|rows| - 1].isPrimary then 1 else 0)
  }

  /** The exclusive button group: at most one radio button is checked. */
  predicate AtMostOnePrimary(rows: seq<Row>)
  {
    forall i, j :: 0 <= i < |rows| && 0 <= j < |rows| && rows[i].isPrimary && rows[j].isPrimary ==> i == j
  }

  /** The state the dialog maintains: a non-empty table has exactly one primary row. */
  predicate Settled(rows: seq<Row>)
  {
    AtMostOnePrimary(rows) && (rows != [] ==> exists i :: 0 <= i < |rows| && rows[i].isPrimary)
  }

  predicate NoDuplicateNames(rows: seq<Row>)
  {
    forall i, j :: 0 <= i < j < |rows| ==> rows[i].name != rows[j].name
  }

  function Names(rows: seq<Row>): (ns: seq<string>)
    ensures |ns| == |rows| && forall i :: 0 <= i < |rows| ==> ns[i] == rows[i].name
  {
    seq(|rows|, i requires 0 <= i < |rows| => rows[i].name)
  }

  /** Every radio button unchecked. */
  function Unchecked(rows: seq<Row>): (r: seq<Row>)
    ensures |r| == |rows| && forall i :: 0 <= i < |rows| ==> r[i] == rows[i].(isPrimary := false)
  {
    seq(|rows|, i requires 0 <= i < |rows| => rows[i].(isPrimary := false))
  }

  /** `_add_row_to_table`: a checked button added to the exclusive group unchecks the one checked before. */
  function AppendRow(rows: seq<Row>, name: string, isPrimary: bool): seq<Row>
  {
    (if isPrimary then Unchecked(rows) else rows) + [Row(name, isPrimary)]
  }

  /** The rows `load_data`'s loop produces from the member's position list. */
  function AppendAll(rows: seq<Row>, ps: seq<Row>): seq<Row>
    decreases ps
  {
    if ps == [] then rows else AppendAll(AppendRow(rows, ps[0].name, ps[0].isPrimary), ps[1..])
  }

  /** Check row 0 when rows exist and none is checked. */
  function CheckFirstIfNone(rows: seq<Row>): seq<Row>
  {
    if rows != [] && PrimaryCount(rows) == 0 then rows[0 := rows[0].(isPrimary := true)] else rows
  }

  /** `load_data` on the table. */
  function LoadRows(ps: seq<Row>): seq<Row>
  {
    CheckFirstIfNone(AppendAll([], ps))
  }

  /** `add_position_to_table` with `selected` in the combo box. */
  function AddRows(rows: seq<Row>, selected: string): seq<Row>
  {
    if selected == "" || selected in Names(rows) then rows else AppendRow(rows, selected, rows == [])
  }

  /** The first row whose name is `name`, or `|rows|`. */
  function IndexOfName(rows: seq<Row>, name: string): (k: nat)
    ensures k <= |rows|
    ensures k < |rows| ==> rows[k].name == name
    ensures forall j :: 0 <= j < k ==> rows[j].name != name
  {
    if rows == [] || rows[0].name == name then 0 else 1 + IndexOfName(rows[1..], name)
  }

  /** The rows without row `k`, order kept. */
  function Drop(rows: seq<Row>, k: nat): (r: seq<Row>)
    requires k < |rows|
    ensures |r| == |rows| - 1
    ensures forall i :: 0 <= i < |r| ==> r[i] == rows[if i < k then i else i + 1]
  {
    rows[..k] + rows[k + 1..]
  }

  /** `remove_position_from_table`: drop the first row named `name`; if it was primary, check row 0. */
  function RemoveRows(rows: seq<Row>, name: string): seq<Row>
  {
    var k := IndexOfName(rows, name);
    if k == |rows| then rows
    else
      var r := Drop(rows, k);
      if rows[k].isPrimary && r != [] then r[0 := r[0].(isPrimary := true)] else r
  }

  /** A click on row `i`'s radio button: the exclusive group leaves only that one checked. */
  function CheckRow(rows: seq<Row>, i: nat): (r: seq<Row>)
    requires i < |rows|
    ensures |r| == |rows| && forall j :: 0 <= j < |rows| ==> r[j] == rows[j].(isPrimary := j == i)
  {
    seq(|rows|, j requires 0 <= j < |rows| => rows[j].(isPrimary := j == i))
  }

  lemma {:induction false} PrimaryCountZero(rows: seq<Row>)
    ensures PrimaryCount(rows) == 0 <==> forall i :: 0 <= i < |rows| ==> !rows[i].isPrimary
  {
    if rows != [] {
      PrimaryCountZero(rows[..|rows| - 1]);
    }
  }

  lemma AppendRowKeepsExclusive(rows: seq<Row>, name: string, isPrimary: bool)
    requires AtMostOnePrimary(rows)
    ensures AtMostOnePrimary(AppendRow(rows, name, isPrimary))
    ensures Names(AppendRow(rows, name, isPrimary)) == Names(rows) + [name]
  {
    var r := AppendRow(rows, name, isPrimary);
    assert forall i :: 0 <= i < |rows| ==> r[i].name == rows[i].name;
  }

  lemma {:induction false} AppendAllKeepsExclusive(rows: seq<Row>, ps: seq<Row>)
    requires AtMostOnePrimary(rows)
    ensures AtMostOnePrimary(AppendAll(rows, ps))
    ensures Names(AppendAll(rows, ps)) == Names(rows) + Names(ps)
    decreases ps
  {
    if ps != [] {
      AppendRowKeepsExclusive(rows, ps[0].name, ps[0].isPrimary);
      AppendAllKeepsExclusive(AppendRow(rows, ps[0].name, ps[0].isPrimary), ps[1..]);
      assert Names(ps) == [ps[0].name] + Names(ps[1..]);
    }
  }

  /**
    `load_data` shows the given positions in order; a non-empty table ends
    with exactly one primary row, which is row 0 unless some given position
    was primary.
   */
  lemma LoadRowsSettled(ps: seq<Row>)
    ensures Names(LoadRows(ps)) == Names(ps)
    ensures Settled(LoadRows(ps))
    ensures (forall i :: 0 <= i < |ps| ==> !ps[i].isPrimary) && ps != [] ==> LoadRows(ps)[0].isPrimary
  {
    AppendAllKeepsExclusive([], ps);
    var a := AppendAll([], ps);
    assert Names([]) == [];
    assert LoadRows(ps) == CheckFirstIfNone(a);
    if forall i :: 0 <= i < |ps| ==> !ps[i].isPrimary {
      NoPrimaryAppended([], ps);
    }
    hide *;
    CheckFirstSettles(a);
  }

  /** Checking row 0 of a table with no primary row settles it and keeps the names. */
  lemma CheckFirstSettles(a: seq<Row>)
    requires AtMostOnePrimary(a)
    ensures Names(CheckFirstIfNone(a)) == Names(a)
    ensures Settled(CheckFirstIfNone(a))
    ensures (forall i :: 0 <= i < |a| ==> !a[i].isPrimary) && a != [] ==> CheckFirstIfNone(a)[0].isPrimary
  {
    PrimaryCountZero(a);
    if a != [] {
      if PrimaryCount(a) == 0 {
        var r := a[0 := a[0].(isPrimary := true)];
        assert CheckFirstIfNone(a) == r;
        assert Names(r) == Names(a);
        assert r[0].isPrimary && forall i :: 0 < i < |r| ==> !r[i].isPrimary;
      } else {
        var p :| 0 <= p < |a| && a[p].isPrimary;
        assert a[p].isPrimary;
      }
    }
  }

  lemma {:induction false} NoPrimaryAppended(rows: seq<Row>, ps: seq<Row>)
    requires forall i :: 0 <= i < |rows| ==> !rows[i].isPrimary
    requires forall i :: 0 <= i < |ps| ==> !ps[i].isPrimary
    ensures forall i :: 0 <= i < |AppendAll(rows, ps)| ==> !AppendAll(rows, ps)[i].isPrimary
    decreases ps
  {
    if ps != [] {
      NoPrimaryAppended(AppendRow(rows, ps[0].name, ps[0].isPrimary), ps[1..]);
    }
  }

  /**
    Adding: an empty selection or a name already in the table changes
    nothing; otherwise one row is appended, primary exactly when the table
    was empty. Names stay distinct and a settled table stays settled.
   */
  lemma AddRowsSpec(rows: seq<Row>, selected: string)
    ensures selected == "" || selected in Names(rows) ==> AddRows(rows, selected) == rows
    ensures selected != "" && selected !in Names(rows) ==>
      AddRows(rows, selected) == rows + [Row(selected, rows == [])]
    ensures NoDuplicateNames(rows) ==> NoDuplicateNames(AddRows(rows, selected))
    ensures Settled(rows) ==> Settled(AddRows(rows, selected))
  {
    if selected != "" && selected !in Names(rows) {
      var r := AddRows(rows, selected);
      if rows == [] {
        assert Unchecked(rows) == [];
      }
      assert r == rows + [Row(selected, rows == [])];
      if NoDuplicateNames(rows) {
        forall i, j | 0 <= i < j < |r| ensures r[i].name != r[j].name {
          assert r[i] == rows[i];
          if j == |rows| {
            assert Names(rows)[i] == rows[i].name;
          } else {
            assert r[j] == rows[j];
          }
        }
      }
      if rows == [] {
        assert r[0].isPrimary;
      } else if Settled(rows) {
        var p :| 0 <= p < |rows| && rows[p].isPrimary;
        assert forall i :: 0 <= i < |rows| ==> r[i] == rows[i];
        assert r[p].isPrimary && !r[|rows|].isPrimary;
        forall i, j | 0 <= i < |r| && 0 <= j < |r| && r[i].isPrimary && r[j].isPrimary ensures i == j {
          assert i < |rows| && j < |rows|;
          assert rows[i].isPrimary && rows[j].isPrimary;
        }
      }
    }
  }

  /**
    Removing: a name not in the table changes nothing; otherwise the first
    row with the name goes and the others keep their order and names, so
    distinct names stay distinct.
   */
  lemma RemoveRowsNames(rows: seq<Row>, name: string)
    ensures name !in Names(rows) ==> RemoveRows(rows, name) == rows
    ensures name in Names(rows) ==> Names(RemoveRows(rows, name)) == Names(Drop(rows, IndexOfName(rows, name)))
    ensures NoDuplicateNames(rows) ==> NoDuplicateNames(RemoveRows(rows, name))
  {
    var k := IndexOfName(rows, name);
    if k < |rows| {
      assert name in Names(rows) by { assert Names(rows)[k] == name; }
      RemoveRowsDropNames(rows, name);
      hide *;
      if NoDuplicateNames(rows) {
        DropKeepsDistinct(rows, k);
        NamesDistinct(Drop(rows, k), RemoveRows(rows, name));
      }
    } else {
      assert name !in Names(rows);
    }
  }

  /** Removing a present row leaves, name for name, the rows without it. */
  lemma RemoveRowsDropNames(rows: seq<Row>, name: string)
    requires IndexOfName(rows, name) < |rows|
    ensures Names(RemoveRows(rows, name)) == Names(Drop(rows, IndexOfName(rows, name)))
  {
    var r, d := RemoveRows(rows, name), Drop(rows, IndexOfName(rows, name));
    assert |r| == |d| && forall i :: 0 <= i < |r| ==> r[i].name == d[i].name;
    hide RemoveRows, Drop;
    assert Names(r) == Names(d);
  }

  /** Dropping a row keeps the names distinct. */
  lemma DropKeepsDistinct(rows: seq<Row>, k: nat)
    requires k < |rows| && NoDuplicateNames(rows)
    ensures NoDuplicateNames(Drop(rows, k))
  {
    var d := Drop(rows, k);
    forall i, j | 0 <= i < j < |d| ensures d[i].name != d[j].name {
      assert d[i] == rows[if i < k then i else i + 1];
      assert d[j] == rows[if j < k then j else j + 1];
    }
  }

  /** Two tables with the same names agree on having no duplicate. */
  lemma NamesDistinct(a: seq<Row>, b: seq<Row>)
    requires Names(a) == Names(b) && NoDuplicateNames(a)
    ensures NoDuplicateNames(b)
  {
    forall i, j | 0 <= i < j < |b| ensures b[i].name != b[j].name {
      assert b[i].name == Names(b)[i] == Names(a)[i] == a[i].name;
      assert b[j].name == Names(b)[j] == Names(a)[j] == a[j].name;
    }
  }

  /**
    Removing keeps at most one primary row and keeps a settled table
    settled; when the removed row was the primary one and rows remain, row 0
    becomes primary.
   */
  lemma RemoveRowsSettled(rows: seq<Row>, name: string)
    requires AtMostOnePrimary(rows)
    ensures AtMostOnePrimary(RemoveRows(rows, name))
    ensures Settled(rows) ==> Settled(RemoveRows(rows, name))
    ensures IndexOfName(rows, name) < |rows| && rows[IndexOfName(rows, name)].isPrimary && |rows| > 1 ==>
      RemoveRows(rows, name)[0].isPrimary
  {
    var k := IndexOfName(rows, name);
    if k < |rows| && |rows| > 1 {
      var d := Drop(rows, k);
      var r := RemoveRows(rows, name);
      if rows[k].isPrimary {
        assert forall i :: 0 <= i < |d| ==> !d[i].isPrimary;
        assert r == d[0 := d[0].(isPrimary := true)];
        assert r[0].isPrimary;
        assert forall i :: 0 < i < |r| ==> !r[i].isPrimary;
      } else {
        assert r == d;
        if Settled(rows) {
          var p :| 0 <= p < |rows| && rows[p].isPrimary;
          assert d[if p < k then p else p - 1].isPrimary;
        }
      }
    }
  }

  /** A click keeps the table settled and makes the clicked row the only primary. */
  lemma CheckRowSettled(rows: seq<Row>, i: nat)
    requires i < |rows|
    ensures Settled(CheckRow(rows, i)) && CheckRow(rows, i)[i].isPrimary
  {
  }

  class MemberEditDialog {
    var name: string
    var phone: string
    var allPositions: seq<string>
    var rows: seq<Row>

    ghost predicate Valid()
      reads this
    {
      AtMostOnePrimary(rows)
    }

    constructor ()
      ensures Valid() && rows == [] && name == "" && phone == "" && allPositions == []
    {
      name, phone, allPositions, rows := "", "", [], [];
    }

    /** `_add_row_to_table`. */
    method AddRowToTable(positionName: string, isPrimary: bool)
      requires Valid()
      modifies this`rows
      ensures Valid()
      ensures rows == AppendRow(old(rows), positionName, isPrimary)
    {
      AppendRowKeepsExclusive(rows, positionName, isPrimary);
      if isPrimary {
        rows := Unchecked(rows);
      }
      rows := rows + [Row(positionName, isPrimary)];
    }

    /** `load_data`: fill name and phone, replace the table with the member's positions, check row 0 if none is. */
    method LoadData(memberData: FormData, allPositions: seq<string>)
      requires Valid() && rows == []
      modifies this
      ensures Valid()
      ensures name == memberData.name && phone == memberData.phone && this.allPositions == allPositions
      ensures rows == LoadRows(memberData.positions)
    {
      this.allPositions := allPositions;
      name := memberData.name;
      phone := memberData.phone;
      rows := [];
      var ps := memberData.positions;
      var i := 0;
      while i < |ps|
        invariant 0 <= i <= |ps|
        invariant Valid()
        invariant name == memberData.name && phone == memberData.phone && this.allPositions == allPositions
        invariant AppendAll(rows, ps[i..]) == AppendAll([], ps)
      {
        assert ps[i..][1..] == ps[i + 1..];
        AddRowToTable(ps[i].name, ps[i].isPrimary);
        i := i + 1;
      }
      if |rows| > 0 && PrimaryCount(rows) == 0 {
        rows := rows[0 := rows[0].(isPrimary := true)];
      }
      LoadRowsSettled(ps);
    }

    /** `add_position_to_table` with `selected` the combo box's current text. */
    method AddPositionToTable(selected: string)
      requires Valid()
      modifies this`rows
      ensures Valid()
      ensures rows == AddRows(old(rows), selected)
    {
      if selected == "" {
        return;
      }
      var current := Names(rows);
      if selected in current {
        return;
      }
      var isFirst := |rows| == 0;
      AddRowToTable(selected, isFirst);
    }

    /** `remove_position_from_table`: scan the rows and remove the first one with the name. */
    method RemovePositionFromTable(positionToRemove: string)
      requires Valid()
      modifies this`rows
      ensures Valid()
      ensures rows == RemoveRows(old(rows), positionToRemove)
    {
      hide IndexOfName, Drop;
      ghost var before := rows;
      var row := 0;
      while row < |rows|
        invariant 0 <= row <= |rows| && rows == before
        invariant forall j :: 0 <= j < row ==> rows[j].name != positionToRemove
      {
        if rows[row].name == positionToRemove {
          var wasPrimary := rows[row].isPrimary;
          rows := Drop(rows, row);
          if wasPrimary && |rows| > 0 {
            rows := rows[0 := rows[0].(isPrimary := true)];
          }
          assert IndexOfName(before, positionToRemove) == row;
          RemoveRowsSettled(before, positionToRemove);
          return;
        }
        row := row + 1;
      }
      assert IndexOfName(before, positionToRemove) == |before|;
    }

    /** A click on row `i`'s radio button, handled by the exclusive group. */
    method ClickPrimary(i: nat)
      requires Valid() && i < |rows|
      modifies this`rows
      ensures Valid()
      ensures rows == CheckRow(old(rows), i)
    {
      rows := CheckRow(rows, i);
    }

    /**
      `get_form_data`: None when rows exist but none is primary, otherwise
      the name, the phone and the rows in table order.
     */
    method GetFormData() returns (r: Option<FormData>)
      requires Valid()
      ensures r.None? <==> rows != [] && forall i :: 0 <= i < |rows| ==> !rows[i].isPrimary
      ensures r.Some? ==> r.value == FormData(name, phone, rows)
    {
      PrimaryCountZero(rows);
      if |rows| > 0 && PrimaryCount(rows) == 0 {
        return None;
      }
      var positions: seq<Row> := [];
      var row := 0;
      while row < |rows|
        invariant 0 <= row <= |rows|
        invariant positions == rows[..row]
      {
        positions := positions + [Row(rows[row].name, rows[row].isPrimary)];
        row := row + 1;
      }
      assert rows[..|rows|] == rows;
      r := Some(FormData(name, phone, positions));
    }
  }

  /** In a settled table `get_form_data`'s validation never fails. */
  lemma SettledPassesValidation(rows: seq<Row>)
    requires Settled(rows)
    ensures !(rows != [] && forall i :: 0 <= i < |rows| ==> !rows[i].isPrimary)
  {
  }
}
