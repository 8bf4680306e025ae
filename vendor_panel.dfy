/**
 * `VendorSponsorPanel`: the vendors loaded at start-up, shown one per table row
 * (first name, last name, booth name, unique id), with Add, Edit and Delete.
 * Every change to the list is written to the vendors file at once.
 */
module VendorSponsorPanels {
  import opened Wrappers
  import opened JavaText
  import D = Domain
  import opened Persistence
  import opened Tables
  import opened Forms
  import V = VendorSponsors

  /** The table row of a vendor/sponsor. */
  function RowOf(s: D.VendorRecord): (row: Row)
    ensures |row| == 4
    ensures row[0] == Text(s.firstName) && row[1] == Text(s.lastName)
    ensures row[2] == Text(s.boothName) && row[3] == Text(s.uniqueId)
  {
    [Text(s.firstName), Text(s.lastName), Text(s.boothName), Text(s.uniqueId)]
  }

  /**
   * What the dialog builds from its fields, `id` being the identifier the new
   * vendor/sponsor draws: the vendor/sponsor, or the exception that refuses the form when
   * any of the three fields is blank.
   */
  function Built(firstNameText: string, lastNameText: string, boothNameText: string, id: string)
    : (r: Result<D.VendorRecord, D.Failure>)
    ensures r.Ok? <==> !IsBlank(firstNameText) && !IsBlank(lastNameText) && !IsBlank(boothNameText)
    ensures r.Err? ==> r.error == D.IllegalArgument(ALL_FIELDS_REQUIRED)
    ensures r.Ok? ==> r.value == D.VendorSponsor(Trim(firstNameText), Trim(lastNameText), Trim(boothNameText), id)
  {
    var texts := [firstNameText, lastNameText, boothNameText];
    var fields := RequireAll(texts, ALL_FIELDS_REQUIRED);
    assert texts[0] == firstNameText && texts[1] == lastNameText && texts[2] == boothNameText;
    if fields.Err? then Err(fields.error)
    else Ok(D.VendorSponsor(fields.value[0], fields.value[1], fields.value[2], id))
  }

  /** The unique ids of a list of vendors, in order. */
  function IdsOf(vendors: seq<D.VendorRecord>): (ids: seq<string>)
    ensures |ids| == |vendors| && forall i :: 0 <= i < |ids| ==> ids[i] == vendors[i].uniqueId
  {
    seq(|vendors|, i requires 0 <= i < |vendors| => vendors[i].uniqueId)
  }

  class VendorSponsorPanel {
    const table: TableModel
    const persistence: JsonPersistenceManager
    const uuids: D.UuidSource
    /** The vendors shown, in table order. */
    var vendors: seq<D.VendorRecord>
    /** The reference of each vendor/sponsor object in the list, and the reference the next new one gets. */
    var refs: seq<nat>
    var nextRef: nat

    /** The table shows exactly the list. */
    predicate Shown()
      reads this, table
    {
      Mirrors(vendors, table.rows, RowOf)
    }

    /** The list holds distinct objects, one reference per vendor/sponsor. */
    predicate Distinct()
      reads this
    {
      |refs| == |vendors| && Identities(refs, nextRef)
    }

    /** The identifier source knows every id in the list, so it never hands one out again. */
    ghost predicate IdsKnown()
      reads this, uuids
    {
      uuids.Valid() && forall i :: 0 <= i < |vendors| ==> vendors[i].uniqueId in uuids.known
    }

    ghost predicate Valid()
      reads this, table, uuids
    {
      Shown() && Distinct() && IdsKnown()
    }

    /** The panel around a loaded list: one table row per vendor/sponsor, in list order. */
    constructor Init(persistence: JsonPersistenceManager, uuids: D.UuidSource, vendors: seq<D.VendorRecord>)
      requires uuids.Valid() && forall i :: 0 <= i < |vendors| ==> vendors[i].uniqueId in uuids.known
      ensures this.persistence == persistence && this.uuids == uuids
      ensures this.vendors == vendors
      ensures fresh(table) && Valid()
    {
      var rows := new TableModel();
      for i := 0 to |vendors|
        invariant Mirrors(vendors[..i], rows.rows, RowOf)
      {
        rows.AddRow(RowOf(vendors[i]));
      }
      assert vendors[..|vendors|] == vendors;
      InitialIdentities(|vendors|);
      this.persistence := persistence;
      this.uuids := uuids;
      this.vendors := vendors;
      refs := seq(|vendors|, i => i);
      nextRef := |vendors|;
      table := rows;
    }

    /**
     * `new VendorSponsorPanel()`: loads the vendors, whose ids no later draw
     * repeats; a load that throws leaves no panel.
     */
    static method Open(persistence: JsonPersistenceManager, uuids: D.UuidSource) returns (r: Result<VendorSponsorPanel, D.Failure>)
      requires uuids.Valid()
      modifies uuids
      ensures uuids.Valid() && uuids.drawn == old(uuids.drawn) && old(uuids.known) <= uuids.known
      ensures r.Err? <==> VendorsOnDisk(persistence.fs.files, persistence.fs.unavailable).Err?
      ensures r.Err? ==> r.error == VendorsOnDisk(persistence.fs.files, persistence.fs.unavailable).error
      ensures r.Ok? ==> fresh(r.value) && fresh(r.value.table) && r.value.Valid()
      ensures r.Ok? ==> r.value.persistence == persistence && r.value.uuids == uuids
      ensures r.Ok? ==> VendorsOnDisk(persistence.fs.files, persistence.fs.unavailable) == Ok(r.value.vendors)
    {
      var loaded := persistence.LoadVendors();
      if loaded.Err? {
        return Err(loaded.error);
      }
      var ids := IdsOf(loaded.value);
      uuids.Observe(ids);
      forall i | 0 <= i < |loaded.value|
        ensures loaded.value[i].uniqueId in uuids.known
      {
        assert ids[i] in set j | 0 <= j < |ids| :: ids[j];
      }
      var panel := new VendorSponsorPanel.Init(persistence, uuids, loaded.value);
      r := Ok(panel);
    }

    /**
     * The Edit button: the dialog's target and the vendor/sponsor on the selected
     * row, whose fields pre-fill the dialog, or `None` (a "No Selection"
     * warning) when no row is selected.
     */
    method SelectForEdit(selectedRow: int) returns (r: Option<(Target, D.VendorRecord)>)
      requires Valid() && selectedRow < |vendors|
      ensures r.None? <==> selectedRow < 0
      ensures r.Some? ==> r.value.0 == Target(selectedRow, refs[selectedRow]) && r.value.1 == vendors[selectedRow]
      ensures r.Some? ==> table.rows[selectedRow] == RowOf(r.value.1)
    {
      if selectedRow < 0 {
        return None;
      }
      r := Some((Target(selectedRow, refs[selectedRow]), vendors[selectedRow]));
    }

    /**
     * The dialog's Save button; `editing` is the target of an Edit dialog and
     * `None` for Add. The dialog always builds a new vendor/sponsor, so an edited
     * vendor/sponsor is given a new unique id; a save of the same dialog after one
     * that replaced its vendor/sponsor is refused (see `Commit`).
     */
    method Submit(editing: Option<Target>, firstNameText: string, lastNameText: string, boothNameText: string)
      returns (r: Response)
      requires Valid()
      requires editing.Some? ==> editing.value.row < |vendors|
      requires editing.Some? && editing.value.ref in refs ==> refs[editing.value.row] == editing.value.ref
      modifies this, table, uuids, persistence.fs
      ensures uuids.Valid() && old(uuids.known) <= uuids.known
      ensures Valid()
      ensures persistence.fs.unavailable == old(persistence.fs.unavailable)
      ensures
        var form := Built(firstNameText, lastNameText, boothNameText, old(uuids.Upcoming()));
        && uuids.drawn == old(uuids.drawn) + (if form.Ok? then 1 else 0)
        && (form.Err? ==> r == Rejected(form.error))
        && (form.Err? || Stale(editing, old(refs)) ==>
              vendors == old(vendors) && refs == old(refs) && persistence.fs.files == old(persistence.fs.files))
        && (form.Ok? ==> form.value.uniqueId !in old(uuids.known))
        && (form.Ok? && Stale(editing, old(refs)) ==> r == Rejected(D.IndexOutOfBounds(-1)))
        && (form.Ok? && !Stale(editing, old(refs)) ==>
              && vendors == Placed(old(vendors), EditRow(editing), form.value)
              && persistence.fs.files == AfterSave(old(persistence.fs.files), persistence.fs.unavailable, Vendors, VendorArray(vendors))
              && r == AfterSaving(SaveOutcome(persistence.fs.unavailable, Vendors)))
        && (form.Ok? && editing.Some? && !Stale(editing, old(refs)) ==>
              && vendors[editing.value.row].uniqueId != old(vendors)[editing.value.row].uniqueId
              && Stale(editing, refs))
      ensures r.Saved? ==> VendorsOnDisk(persistence.fs.files, persistence.fs.unavailable) == Ok(vendors)
    {
      var form := Draw(firstNameText, lastNameText, boothNameText);
      if form.Err? {
        return Rejected(form.error);
      }
      if editing.Some? {
        assert vendors[editing.value.row].uniqueId in old(uuids.known);
      }
      r := Commit(editing, form.value);
    }

    /** The dialog's fields checked, then a new vendor/sponsor built from them, which draws an identifier. */
    method Draw(firstNameText: string, lastNameText: string, boothNameText: string)
      returns (form: Result<D.VendorRecord, D.Failure>)
      requires IdsKnown()
      modifies uuids
      ensures uuids.Valid() && old(uuids.known) <= uuids.known
      ensures IdsKnown()
      ensures uuids.drawn == old(uuids.drawn) + (if form.Ok? then 1 else 0)
      ensures form == Built(firstNameText, lastNameText, boothNameText, old(uuids.Upcoming()))
      ensures form.Ok? ==> form.value.uniqueId in uuids.known && form.value.uniqueId !in old(uuids.known)
    {
      ghost var known := uuids.known;
      var fields := RequireAll([firstNameText, lastNameText, boothNameText], ALL_FIELDS_REQUIRED);
      if fields.Err? {
        return Err(fields.error);
      }
      var created := new V.VendorSponsor(fields.value[0], fields.value[1], fields.value[2], uuids);
      var vendor := created.Value();
      assert known <= uuids.known;
      assert IdsKnown();
      form := Ok(vendor);
    }

    /**
     * Adds `s` at the end, or puts it in place of the object the dialog was
     * opened on, in the list and in the table alike, then saves the whole
     * list. The edited position is `indexOf` that object; when it is no longer
     * in the list, `set(-1, …)` throws before anything changes. After an edit
     * the object is gone, so saving the same dialog again is refused.
     */
    method Commit(editing: Option<Target>, s: D.VendorRecord) returns (r: Response)
      requires Valid() && s.uniqueId in uuids.known
      requires editing.Some? ==> editing.value.row < |vendors|
      requires editing.Some? && editing.value.ref in refs ==> refs[editing.value.row] == editing.value.ref
      modifies this, table, persistence.fs
      ensures Valid()
      ensures persistence.fs.unavailable == old(persistence.fs.unavailable)
      ensures Stale(editing, old(refs)) ==>
        && r == Rejected(D.IndexOutOfBounds(-1))
        && vendors == old(vendors) && refs == old(refs) && persistence.fs.files == old(persistence.fs.files)
      ensures !Stale(editing, old(refs)) ==>
        && vendors == Placed(old(vendors), EditRow(editing), s)
        && refs == Placed(old(refs), EditRow(editing), old(nextRef))
        && persistence.fs.files == AfterSave(old(persistence.fs.files), persistence.fs.unavailable, Vendors, VendorArray(vendors))
        && r == AfterSaving(SaveOutcome(persistence.fs.unavailable, Vendors))
      ensures editing.Some? ==> Stale(editing, refs)
      ensures r.Saved? ==> VendorsOnDisk(persistence.fs.files, persistence.fs.unavailable) == Ok(vendors)
    {
      var at: Option<nat> := None;
      if editing.Some? {
        var index := IndexOf(refs, editing.value.ref);
        if index == -1 {
          return Rejected(D.IndexOutOfBounds(index));
        }
        IndexOfDistinct(refs, nextRef, editing.value.row, editing.value.ref);
        at := Some(index);
      }
      Apply(at, s);
      var saved := persistence.SaveVendors(vendors);
      r := AfterSaving(saved);
    }

    /** `s` added or put in place of the vendor/sponsor at `at`, in the list and in the table alike. */
    method Apply(at: Option<nat>, s: D.VendorRecord)
      requires Valid() && (at.Some? ==> at.value < |vendors|) && s.uniqueId in uuids.known
      modifies this, table
      ensures Valid()
      ensures vendors == Placed(old(vendors), at, s)
      ensures refs == Placed(old(refs), at, old(nextRef))
      ensures at.Some? ==> old(refs)[at.value] !in refs
    {
      PlacedMirrors(vendors, table.rows, RowOf, at, s);
      Render(at, s);
      Place(at, s);
    }

    /** The list half of a save: `s`, a new object, added at the end or in place of the object at `at`. */
    method Place(at: Option<nat>, s: D.VendorRecord)
      requires Distinct() && IdsKnown() && (at.Some? ==> at.value < |vendors|) && s.uniqueId in uuids.known
      modifies this
      ensures Distinct() && IdsKnown()
      ensures vendors == Placed(old(vendors), at, s)
      ensures refs == Placed(old(refs), at, old(nextRef))
      ensures at.Some? ==> old(refs)[at.value] !in refs
    {
      PlacedIdentities(refs, nextRef, at);
      ghost var known := uuids.known;
      PlacedKeeps(vendors, at, s, (x: D.VendorRecord) => x.uniqueId in known);
      vendors := Placed(vendors, at, s);
      refs := Placed(refs, at, nextRef);
      nextRef := nextRef + 1;
    }

    /** The table half of a save: a new last row, or the four cells of row `at` overwritten. */
    method Render(at: Option<nat>, s: D.VendorRecord)
      requires at.Some? ==> at.value < |table.rows| && |table.rows[at.value]| == 4
      modifies table
      ensures table.rows == Placed(old(table.rows), at, RowOf(s))
    {
      match at {
        case None =>
          table.AddRow([Text(s.firstName), Text(s.lastName), Text(s.boothName), Text(s.uniqueId)]);
        case Some(row) =>
          table.SetValueAt(Text(s.firstName), row, 0);
          table.SetValueAt(Text(s.lastName), row, 1);
          table.SetValueAt(Text(s.boothName), row, 2);
          table.SetValueAt(Text(s.uniqueId), row, 3);
          assert table.rows[row] == RowOf(s);
      }
    }

    /** The Delete button, after the confirmation dialog was answered `confirmed`. */
    method Delete(selectedRow: int, confirmed: bool) returns (r: Response)
      requires Valid() && selectedRow < |vendors|
      modifies this, table, persistence.fs
      ensures Valid()
      ensures persistence.fs.unavailable == old(persistence.fs.unavailable)
      ensures selectedRow < 0 ==> r == NoSelection
      ensures selectedRow >= 0 && !confirmed ==> r == Declined
      ensures r == NoSelection || r == Declined ==>
        vendors == old(vendors) && refs == old(refs) && persistence.fs.files == old(persistence.fs.files)
      ensures selectedRow >= 0 && confirmed ==>
        && vendors == RemoveAt(old(vendors), selectedRow)
        && refs == RemoveAt(old(refs), selectedRow)
        && persistence.fs.files == AfterSave(old(persistence.fs.files), persistence.fs.unavailable, Vendors, VendorArray(vendors))
        && r == AfterSaving(SaveOutcome(persistence.fs.unavailable, Vendors))
      ensures r.Saved? ==> VendorsOnDisk(persistence.fs.files, persistence.fs.unavailable) == Ok(vendors)
    {
      if selectedRow < 0 {
        return NoSelection;
      }
      if !confirmed {
        return Declined;
      }
      Remove(selectedRow);
      var saved := persistence.SaveVendors(vendors);
      r := AfterSaving(saved);
    }

    /** The vendor/sponsor at `row` taken out of the list and its row out of the table. */
    method Remove(row: nat)
      requires Valid() && row < |vendors|
      modifies this, table
      ensures Valid()
      ensures vendors == RemoveAt(old(vendors), row)
      ensures refs == RemoveAt(old(refs), row)
    {
      MirrorsRemoveAt(vendors, table.rows, RowOf, row);
      RemoveAtIdentities(refs, nextRef, row);
      ghost var known := uuids.known;
      RemoveAtKeeps(vendors, row, (x: D.VendorRecord) => x.uniqueId in known);
      vendors := RemoveAt(vendors, row);
      refs := RemoveAt(refs, row);
      table.RemoveRow(row);
    }
  }
}
