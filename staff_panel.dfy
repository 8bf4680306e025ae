/**
 * `StaffPanel`: the staff members loaded at start-up, shown one per table row
 * (first name, last name, hat size), with Add, Edit and Delete. Staff members
 * carry no unique id. Every change to the list is written to the staff file
 * at once.
 */
module StaffPanels {
  import opened Wrappers
  import opened JavaText
  import D = Domain
  import opened Persistence
  import opened Tables
  import opened Forms

  /** The table row of a staff member. */
  function RowOf(s: D.StaffRecord): (row: Row)
    ensures |row| == 3
    ensures row[0] == Text(s.firstName) && row[1] == Text(s.lastName) && row[2] == Text(s.hatSize)
  {
    [Text(s.firstName), Text(s.lastName), Text(s.hatSize)]
  }

  /**
   * What the dialog builds from its fields: the staff member, or the
   * exception that refuses the form when any of the three fields is blank.
   */
  function Built(firstNameText: string, lastNameText: string, hatSizeText: string)
    : (r: Result<D.StaffRecord, D.Failure>)
    ensures r.Ok? <==> !IsBlank(firstNameText) && !IsBlank(lastNameText) && !IsBlank(hatSizeText)
    ensures r.Err? ==> r.error == D.IllegalArgument(ALL_FIELDS_REQUIRED)
    ensures r.Ok? ==> r.value == D.Staff(Trim(firstNameText), Trim(lastNameText), Trim(hatSizeText))
  {
    var texts := [firstNameText, lastNameText, hatSizeText];
    var fields := RequireAll(texts, ALL_FIELDS_REQUIRED);
    assert texts[0] == firstNameText && texts[1] == lastNameText && texts[2] == hatSizeText;
    if fields.Err? then Err(fields.error)
    else Ok(D.Staff(fields.value[0], fields.value[1], fields.value[2]))
  }

  class StaffPanel {
    const table: TableModel
    const persistence: JsonPersistenceManager
    /** The staff members shown, in table order. */
    var staffMembers: seq<D.StaffRecord>
    /** The reference of each staff object in the list, and the reference the next new one gets. */
    var refs: seq<nat>
    var nextRef: nat

    /** The table shows exactly the list. */
    predicate Shown()
      reads this, table
    {
      Mirrors(staffMembers, table.rows, RowOf)
    }

    /** The list holds distinct objects, one reference per staff member. */
    predicate Distinct()
      reads this
    {
      |refs| == |staffMembers| && Identities(refs, nextRef)
    }

    predicate Valid()
      reads this, table
    {
      Shown() && Distinct()
    }

    /** The panel around a loaded list: one table row per staff member, in list order. */
    constructor Init(persistence: JsonPersistenceManager, staffMembers: seq<D.StaffRecord>)
      ensures this.persistence == persistence
      ensures this.staffMembers == staffMembers
      ensures fresh(table) && Valid()
    {
      var rows := new TableModel();
      for i := 0 to |staffMembers|
        invariant Mirrors(staffMembers[..i], rows.rows, RowOf)
      {
        rows.AddRow(RowOf(staffMembers[i]));
      }
      assert staffMembers[..|staffMembers|] == staffMembers;
      InitialIdentities(|staffMembers|);
      this.persistence := persistence;
      this.staffMembers := staffMembers;
      refs := seq(|staffMembers|, i => i);
      nextRef := |staffMembers|;
      table := rows;
    }

    /** `new StaffPanel()`: loads the staff members; a load that throws leaves no panel. */
    static method Open(persistence: JsonPersistenceManager) returns (r: Result<StaffPanel, D.Failure>)
      ensures r.Err? <==> StaffOnDisk(persistence.fs.files, persistence.fs.unavailable).Err?
      ensures r.Err? ==> r.error == StaffOnDisk(persistence.fs.files, persistence.fs.unavailable).error
      ensures r.Ok? ==> fresh(r.value) && fresh(r.value.table) && r.value.Valid()
      ensures r.Ok? ==> r.value.persistence == persistence
      ensures r.Ok? ==> StaffOnDisk(persistence.fs.files, persistence.fs.unavailable) == Ok(r.value.staffMembers)
    {
      var loaded := persistence.LoadStaff();
      if loaded.Err? {
        return Err(loaded.error);
      }
      var panel := new StaffPanel.Init(persistence, loaded.value);
      r := Ok(panel);
    }

    /**
     * The Edit button: the dialog's target and the staff member on the
     * selected row, whose fields pre-fill the dialog, or `None` (a "No
     * Selection" warning) when no row is selected.
     */
    method SelectForEdit(selectedRow: int) returns (r: Option<(Target, D.StaffRecord)>)
      requires Valid() && selectedRow < |staffMembers|
      ensures r.None? <==> selectedRow < 0
      ensures r.Some? ==> r.value.0 == Target(selectedRow, refs[selectedRow]) && r.value.1 == staffMembers[selectedRow]
      ensures r.Some? ==> table.rows[selectedRow] == RowOf(r.value.1)
    {
      if selectedRow < 0 {
        return None;
      }
      r := Some((Target(selectedRow, refs[selectedRow]), staffMembers[selectedRow]));
    }

    /**
     * The dialog's Save button; `editing` is the target of an Edit dialog and
     * `None` for Add. The dialog always builds a new staff object, so a save
     * of the same dialog after one that replaced its staff member is refused
     * (see `Commit`), even though the two objects hold the same fields.
     */
    method Submit(editing: Option<Target>, firstNameText: string, lastNameText: string, hatSizeText: string)
      returns (r: Response)
      requires Valid()
      requires editing.Some? ==> editing.value.row < |staffMembers|
      requires editing.Some? && editing.value.ref in refs ==> refs[editing.value.row] == editing.value.ref
      modifies this, table, persistence.fs
      ensures Valid()
      ensures persistence.fs.unavailable == old(persistence.fs.unavailable)
      ensures
        var form := Built(firstNameText, lastNameText, hatSizeText);
        && (form.Err? ==> r == Rejected(form.error))
        && (form.Err? || Stale(editing, old(refs)) ==>
              staffMembers == old(staffMembers) && refs == old(refs) && persistence.fs.files == old(persistence.fs.files))
        && (form.Ok? && Stale(editing, old(refs)) ==> r == Rejected(D.IndexOutOfBounds(-1)))
        && (form.Ok? && !Stale(editing, old(refs)) ==>
              && staffMembers == Placed(old(staffMembers), EditRow(editing), form.value)
              && persistence.fs.files == AfterSave(old(persistence.fs.files), persistence.fs.unavailable, StaffMembers, StaffArray(staffMembers))
              && r == AfterSaving(SaveOutcome(persistence.fs.unavailable, StaffMembers)))
        && (form.Ok? && editing.Some? ==> Stale(editing, refs))
      ensures r.Saved? ==> StaffOnDisk(persistence.fs.files, persistence.fs.unavailable) == Ok(staffMembers)
    {
      var fields := RequireAll([firstNameText, lastNameText, hatSizeText], ALL_FIELDS_REQUIRED);
      if fields.Err? {
        return Rejected(fields.error);
      }
      var staff := D.Staff(fields.value[0], fields.value[1], fields.value[2]);
      r := Commit(editing, staff);
    }

    /**
     * Adds `s` at the end, or puts it in place of the object the dialog was
     * opened on, in the list and in the table alike, then saves the whole
     * list. The edited position is `indexOf` that object; when it is no longer
     * in the list, `set(-1, …)` throws before anything changes. After an edit
     * the object is gone, so saving the same dialog again is refused.
     */
    method Commit(editing: Option<Target>, s: D.StaffRecord) returns (r: Response)
      requires Valid()
      requires editing.Some? ==> editing.value.row < |staffMembers|
      requires editing.Some? && editing.value.ref in refs ==> refs[editing.value.row] == editing.value.ref
      modifies this, table, persistence.fs
      ensures Valid()
      ensures persistence.fs.unavailable == old(persistence.fs.unavailable)
      ensures Stale(editing, old(refs)) ==>
        && r == Rejected(D.IndexOutOfBounds(-1))
        && staffMembers == old(staffMembers) && refs == old(refs) && persistence.fs.files == old(persistence.fs.files)
      ensures !Stale(editing, old(refs)) ==>
        && staffMembers == Placed(old(staffMembers), EditRow(editing), s)
        && refs == Placed(old(refs), EditRow(editing), old(nextRef))
        && persistence.fs.files == AfterSave(old(persistence.fs.files), persistence.fs.unavailable, StaffMembers, StaffArray(staffMembers))
        && r == AfterSaving(SaveOutcome(persistence.fs.unavailable, StaffMembers))
      ensures editing.Some? ==> Stale(editing, refs)
      ensures r.Saved? ==> StaffOnDisk(persistence.fs.files, persistence.fs.unavailable) == Ok(staffMembers)
    {
      var at: Option<nat> := None;
      if editing.Some? {
        var index := IndexOf(refs, editing.value.ref);
        if index == -1 {
          return Rejected(D.IndexOutOfBounds(index));
        }
        IndexOfDistinct(refs, nextRef, editing.value.row, editing.value.ref);
        at := Some(index);
      }
      Apply(at, s);
      var saved := persistence.SaveStaff(staffMembers);
      r := AfterSaving(saved);
    }

    /** `s` added or put in place of the staff member at `at`, in the list and in the table alike. */
    method Apply(at: Option<nat>, s: D.StaffRecord)
      requires Valid() && (at.Some? ==> at.value < |staffMembers|)
      modifies this, table
      ensures Valid()
      ensures staffMembers == Placed(old(staffMembers), at, s)
      ensures refs == Placed(old(refs), at, old(nextRef))
      ensures at.Some? ==> old(refs)[at.value] !in refs
    {
      PlacedMirrors(staffMembers, table.rows, RowOf, at, s);
      Render(at, s);
      Place(at, s);
    }

    /** The list half of a save: `s`, a new object, added at the end or in place of the object at `at`. */
    method Place(at: Option<nat>, s: D.StaffRecord)
      requires Distinct() && (at.Some? ==> at.value < |staffMembers|)
      modifies this
      ensures Distinct()
      ensures staffMembers == Placed(old(staffMembers), at, s)
      ensures refs == Placed(old(refs), at, old(nextRef))
      ensures at.Some? ==> old(refs)[at.value] !in refs
    {
      PlacedIdentities(refs, nextRef, at);
      staffMembers := Placed(staffMembers, at, s);
      refs := Placed(refs, at, nextRef);
      nextRef := nextRef + 1;
    }

    /** The table half of a save: a new last row, or the three cells of row `at` overwritten. */
    method Render(at: Option<nat>, s: D.StaffRecord)
      requires at.Some? ==> at.value < |table.rows| && |table.rows[at.value]| == 3
      modifies table
      ensures table.rows == Placed(old(table.rows), at, RowOf(s))
    {
      match at {
        case None =>
          table.AddRow([Text(s.firstName), Text(s.lastName), Text(s.hatSize)]);
        case Some(row) =>
          table.SetValueAt(Text(s.firstName), row, 0);
          table.SetValueAt(Text(s.lastName), row, 1);
          table.SetValueAt(Text(s.hatSize), row, 2);
          assert table.rows[row] == RowOf(s);
      }
    }

    /** The Delete button, after the confirmation dialog was answered `confirmed`. */
    method Delete(selectedRow: int, confirmed: bool) returns (r: Response)
      requires Valid() && selectedRow < |staffMembers|
      modifies this, table, persistence.fs
      ensures Valid()
      ensures persistence.fs.unavailable == old(persistence.fs.unavailable)
      ensures selectedRow < 0 ==> r == NoSelection
      ensures selectedRow >= 0 && !confirmed ==> r == Declined
      ensures r == NoSelection || r == Declined ==>
        staffMembers == old(staffMembers) && refs == old(refs) && persistence.fs.files == old(persistence.fs.files)
      ensures selectedRow >= 0 && confirmed ==>
        && staffMembers == RemoveAt(old(staffMembers), selectedRow)
        && refs == RemoveAt(old(refs), selectedRow)
        && persistence.fs.files == AfterSave(old(persistence.fs.files), persistence.fs.unavailable, StaffMembers, StaffArray(staffMembers))
        && r == AfterSaving(SaveOutcome(persistence.fs.unavailable, StaffMembers))
      ensures r.Saved? ==> StaffOnDisk(persistence.fs.files, persistence.fs.unavailable) == Ok(staffMembers)
    {
      if selectedRow < 0 {
        return NoSelection;
      }
      if !confirmed {
        return Declined;
      }
      Remove(selectedRow);
      var saved := persistence.SaveStaff(staffMembers);
      r := AfterSaving(saved);
    }

    /** The staff member at `row` taken out of the list and its row out of the table. */
    method Remove(row: nat)
      requires Valid() && row < |staffMembers|
      modifies this, table
      ensures Valid()
      ensures staffMembers == RemoveAt(old(staffMembers), row)
      ensures refs == RemoveAt(old(refs), row)
    {
      MirrorsRemoveAt(staffMembers, table.rows, RowOf, row);
      RemoveAtIdentities(refs, nextRef, row);
      staffMembers := RemoveAt(staffMembers, row);
      refs := RemoveAt(refs, row);
      table.RemoveRow(row);
    }
  }
}
