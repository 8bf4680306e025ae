/**
 * The part of Swing's `DefaultTableModel` that the panels use: a list of rows
 * of cells, grown with `addRow`, shrunk with `removeRow` and patched cell by
 * cell with `setValueAt`. The panels keep one row per element of their list.
 */
module Tables {
  import opened Domain
  import opened Wrappers

  /** What a cell shows: text, a payment type (possibly absent) or a year. */
  datatype Cell = Text(text: string) | PaymentCell(payment: Option<PaymentType>) | YearCell(year: Year)

  type Row = seq<Cell>

  /** `List.remove(int)`: the element at `i` is taken out and the later ones move up by one. */
  function RemoveAt<T>(s: seq<T>, i: nat): (r: seq<T>)
    requires i < |s|
    ensures |r| == |s| - 1
    ensures forall j :: 0 <= j < i ==> r[j] == s[j]
    ensures forall j :: i <= j < |r| ==> r[j] == s[j + 1]
    ensures multiset(r) + multiset{s[i]} == multiset(s)
  {
    assert s == s[..i] + [s[i]] + s[i + 1..];
    s[..i] + s[i + 1..]
  }

  /** `List.add` when `editing` is `None`, `List.set(editing, x)` otherwise. */
  function Placed<T>(s: seq<T>, editing: Option<nat>, x: T): (r: seq<T>)
    requires editing.Some? ==> editing.value < |s|
    ensures editing.None? ==> |r| == |s| + 1 && r[..|s|] == s && r[|s|] == x
    ensures editing.Some? ==> |r| == |s| && r[editing.value] == x
    ensures editing.Some? ==> forall j :: 0 <= j < |s| && j != editing.value ==> r[j] == s[j]
  {
    if editing.None? then s + [x] else s[editing.value := x]
  }

  /** The table shows exactly the list: one row per element, in the same order. */
  predicate Mirrors<T>(items: seq<T>, rows: seq<Row>, render: T -> Row) {
    |items| == |rows| && forall i :: 0 <= i < |items| ==> rows[i] == render(items[i])
  }

  /** Adding or replacing an element that has a property every element has keeps it universal. */
  lemma PlacedKeeps<T>(s: seq<T>, editing: Option<nat>, x: T, p: T -> bool)
    requires editing.Some? ==> editing.value < |s|
    requires (forall i :: 0 <= i < |s| ==> p(s[i])) && p(x)
    ensures var r := Placed(s, editing, x); forall i :: 0 <= i < |r| ==> p(r[i])
  {
    var r := Placed(s, editing, x);
    forall i | 0 <= i < |r|
      ensures p(r[i])
    {
      if editing.None? && i < |s| {
        assert r[i] == r[..|s|][i];
      }
    }
  }

  /** Adding or replacing at the same position in the list and in the table keeps them in step. */
  lemma PlacedMirrors<T>(items: seq<T>, rows: seq<Row>, render: T -> Row, editing: Option<nat>, x: T)
    requires Mirrors(items, rows, render) && (editing.Some? ==> editing.value < |items|)
    ensures Mirrors(Placed(items, editing, x), Placed(rows, editing, render(x)), render)
  {
    var r, t := Placed(items, editing, x), Placed(rows, editing, render(x));
    forall i | 0 <= i < |r|
      ensures t[i] == render(r[i])
    {
      if editing.None? && i < |items| {
        assert r[i] == r[..|items|][i] && t[i] == t[..|rows|][i];
      }
    }
  }

  /** Removing an element keeps a property every element has. */
  lemma RemoveAtKeeps<T>(s: seq<T>, i: nat, p: T -> bool)
    requires i < |s| && forall k :: 0 <= k < |s| ==> p(s[k])
    ensures var r := RemoveAt(s, i); forall k :: 0 <= k < |r| ==> p(r[k])
  {
  }

  /** Removing the same position from the list and from the table keeps them in step. */
  lemma {:induction false} MirrorsRemoveAt<T>(items: seq<T>, rows: seq<Row>, render: T -> Row, i: nat)
    requires Mirrors(items, rows, render) && i < |items|
    ensures Mirrors(RemoveAt(items, i), RemoveAt(rows, i), render)
  {
    var items', rows' := RemoveAt(items, i), RemoveAt(rows, i);
    forall j | 0 <= j < |items'|
      ensures rows'[j] == render(items'[j])
    {
      if j >= i {
        assert items'[j] == items[j + 1] && rows'[j] == rows[j + 1];
      }
    }
  }

  /**
   * The identities of the objects in a panel's list. Java's `List.indexOf`
   * compares with `equals`, which none of the record classes overrides, so
   * it tells the elements apart by reference; `refs[i]` is the reference of
   * element `i`. The references are distinct and below `next`, the reference
   * the next new object gets.
   */
  predicate Identities(refs: seq<nat>, next: nat) {
    (forall i :: 0 <= i < |refs| ==> refs[i] < next)
    && (forall i, j :: 0 <= i < j < |refs| ==> Apart(refs, i, j))
  }

  /** Positions `i` and `j` hold different objects. */
  predicate Apart(refs: seq<nat>, i: nat, j: nat)
    requires i < |refs| && j < |refs|
  {
    refs[i] != refs[j]
  }

  /** `List.indexOf` under reference equality: the first position of `r`, or -1 when it is absent. */
  function IndexOf(refs: seq<nat>, r: nat): (i: int)
    ensures -1 <= i < |refs|
    ensures i == -1 <==> r !in refs
    ensures i >= 0 ==> refs[i] == r && forall j :: 0 <= j < i ==> refs[j] != r
  {
    if refs == [] then -1
    else if refs[0] == r then 0
    else
      var k := IndexOf(refs[1..], r);
      if k == -1 then -1 else k + 1
  }

  /**
   * What an edit dialog was opened on: the selected row and the object on
   * it. The dialogs are modal, so the selection does not change while one
   * is open.
   */
  datatype Target = Target(row: nat, ref: nat)

  /** The row an add (`None`) or an edit writes. */
  function EditRow(editing: Option<Target>): Option<nat> {
    if editing.None? then None else Some(editing.value.row)
  }

  /**
   * An edit whose object is no longer in the list: `indexOf` gives -1, as it
   * does when a save of the same dialog already replaced that object.
   */
  predicate Stale(editing: Option<Target>, refs: seq<nat>) {
    editing.Some? && editing.value.ref !in refs
  }

  /** With distinct references, `indexOf` finds the one position that holds a reference. */
  lemma IndexOfDistinct(refs: seq<nat>, next: nat, row: nat, r: nat)
    requires Identities(refs, next) && row < |refs| && refs[row] == r
    ensures IndexOf(refs, r) == row
  {
    forall j | 0 <= j < row
      ensures refs[j] != r
    {
      assert Apart(refs, j, row);
    }
  }

  /** The references of a panel's first `n` elements, as they are after loading. */
  lemma InitialIdentities(n: nat)
    ensures Identities(seq(n, i => i), n)
  {
    var refs := seq(n, i => i);
    forall i, j | 0 <= i < j < n
      ensures Apart(refs, i, j)
    {
    }
  }

  /** Adding a new object, or putting one in place of an element, keeps the references distinct. */
  lemma PlacedIdentities(refs: seq<nat>, next: nat, at: Option<nat>)
    requires Identities(refs, next) && (at.Some? ==> at.value < |refs|)
    ensures Identities(Placed(refs, at, next), next + 1)
    ensures at.Some? ==> refs[at.value] !in Placed(refs, at, next)
  {
    var r := Placed(refs, at, next);
    forall k | 0 <= k < |r|
      ensures r[k] == next || (r[k] == refs[k] && (at.None? || k != at.value))
    {
      if at.None? && k < |refs| {
        assert r[k] == r[..|refs|][k];
      }
    }
    forall i, j | 0 <= i < j < |r|
      ensures Apart(r, i, j)
    {
      if r[i] != next && r[j] != next {
        assert Apart(refs, i, j);
      }
    }
    if at.Some? {
      forall k | 0 <= k < |r|
        ensures r[k] != refs[at.value]
      {
        if k < at.value {
          assert Apart(refs, k, at.value);
        } else if at.value < k {
          assert Apart(refs, at.value, k);
        }
      }
    }
  }

  /** Removing an element keeps the references distinct. */
  lemma RemoveAtIdentities(refs: seq<nat>, next: nat, i: nat)
    requires Identities(refs, next) && i < |refs|
    ensures Identities(RemoveAt(refs, i), next)
  {
    var r := RemoveAt(refs, i);
    forall a, b | 0 <= a < b < |r|
      ensures Apart(r, a, b)
    {
      var a', b' := if a < i then a else a + 1, if b < i then b else b + 1;
      assert Apart(refs, a', b');
    }
  }

  class TableModel {
    var rows: seq<Row>

    /** A table with its columns and no rows. */
    constructor ()
      ensures rows == []
    {
      rows := [];
    }

    method AddRow(row: Row)
      modifies this
      ensures rows == old(rows) + [row]
    {
      rows := rows + [row];
    }

    method RemoveRow(i: nat)
      requires i < |rows|
      modifies this
      ensures rows == RemoveAt(old(rows), i)
    {
      rows := RemoveAt(rows, i);
    }

    method SetValueAt(value: Cell, row: nat, column: nat)
      requires row < |rows| && column < |rows[row]|
      modifies this
      ensures rows == old(rows)[row := old(rows)[row][column := value]]
    {
      rows := rows[row := rows[row][column := value]];
    }
  }
}
