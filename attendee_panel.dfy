/**
 * `AttendeePanel`: the attendees loaded at start-up, shown one per table row
 * (first name, last name, payment type, unique id), with Add, Edit and Delete.
 * Every change to the list is written to the attendees file at once.
 */
module AttendeePanels {
  import opened Wrappers
  import opened JavaText
  import D = Domain
  import opened Persistence
  import opened Tables
  import opened Forms
  import A = Attendees

  /** The table row of an attendee. */
  function RowOf(a: D.AttendeeRecord): (row: Row)
    ensures |row| == 4
    ensures row[0] == Text(a.firstName) && row[1] == Text(a.lastName)
    ensures row[2] == PaymentCell(a.paymentType) && row[3] == Text(a.uniqueId)
  {
    [Text(a.firstName), Text(a.lastName), PaymentCell(a.paymentType), Text(a.uniqueId)]
  }

  /**
   * What the dialog builds from its fields, `id` being the identifier the
   * new attendee draws: the attendee, or the exception that refuses the form.
   * Both names are required; a missing payment type is refused by the
   * attendee's own constructor.
   */
  function Built(firstNameText: string, lastNameText: string, paymentType: Option<D.PaymentType>, id: string)
    : (r: Result<D.AttendeeRecord, D.Failure>)
    ensures r.Ok? <==> !IsBlank(firstNameText) && !IsBlank(lastNameText) && paymentType.Some?
    ensures IsBlank(firstNameText) || IsBlank(lastNameText) ==> r == Err(D.IllegalArgument(NAMES_REQUIRED))
    ensures !IsBlank(firstNameText) && !IsBlank(lastNameText) && paymentType.None? ==>
      r == Err(D.IllegalArgument(A.INVALID_PAYMENT_TYPE))
    ensures r.Ok? ==> r.value == D.Attendee(Trim(firstNameText), Trim(lastNameText), paymentType, id)
  {
    var texts := [firstNameText, lastNameText];
    var fields := RequireAll(texts, NAMES_REQUIRED);
    assert texts[0] == firstNameText && texts[1] == lastNameText;
    if fields.Err? then Err(fields.error)
    else if paymentType.None? then Err(D.IllegalArgument(A.INVALID_PAYMENT_TYPE))
    else Ok(D.Attendee(fields.value[0], fields.value[1], paymentType, id))
  }

  /** The unique ids of a list of attendees, in order. */
  function IdsOf(attendees: seq<D.AttendeeRecord>): (ids: seq<string>)
    ensures |ids| == |attendees| && forall i :: 0 <= i < |ids| ==> ids[i] == attendees[i].uniqueId
  {
    seq(|attendees|, i requires 0 <= i < |attendees| => attendees[i].uniqueId)
  }

  class AttendeePanel {
    const table: TableModel
    const persistence: JsonPersistenceManager
    const uuids: D.UuidSource
    /** The attendees shown, in table order. */
    var attendees: seq<D.AttendeeRecord>
    /** The reference of each attendee object in the list, and the reference the next new one gets. */
    var refs: seq<nat>
    var nextRef: nat

    /** The table shows exactly the list. */
    predicate Shown()
      reads this, table
    {
      Mirrors(attendees, table.rows, RowOf)
    }

    /** The list holds distinct objects, one reference per attendee. */
    predicate Distinct()
      reads this
    {
      |refs| == |attendees| && Identities(refs, nextRef)
    }

    /** The identifier source knows every id in the list, so it never hands one out again. */
    ghost predicate IdsKnown()
      reads this, uuids
    {
      uuids.Valid() && forall i :: 0 <= i < |attendees| ==> attendees[i].uniqueId in uuids.known
    }

    ghost predicate Valid()
      reads this, table, uuids
    {
      Shown() && Distinct() && IdsKnown()
    }

    /** The panel around a loaded list: one table row per attendee, in list order. */
    constructor Init(persistence: JsonPersistenceManager, uuids: D.UuidSource, attendees: seq<D.AttendeeRecord>)
      requires uuids.Valid() && forall i :: 0 <= i < |attendees| ==> attendees[i].uniqueId in uuids.known
      ensures this.persistence == persistence && this.uuids == uuids
      ensures this.attendees == attendees
      ensures fresh(table) && Valid()
    {
      var rows := new TableModel();
      for i := 0 to |attendees|
        invariant Mirrors(attendees[..i], rows.rows, RowOf)
      {
        rows.AddRow(RowOf(attendees[i]));
      }
      assert attendees[..|attendees|] == attendees;
      InitialIdentities(|attendees|);
      this.persistence := persistence;
      this.uuids := uuids;
      this.attendees := attendees;
      refs := seq(|attendees|, i => i);
      nextRef := |attendees|;
      table := rows;
    }

    /**
     * `new AttendeePanel()`: loads the attendees, whose ids no later draw
     * repeats; a load that throws leaves no panel.
     */
    static method Open(persistence: JsonPersistenceManager, uuids: D.UuidSource) returns (r: Result<AttendeePanel, D.Failure>)
      requires uuids.Valid()
      modifies uuids
      ensures uuids.Valid() && uuids.drawn == old(uuids.drawn) && old(uuids.known) <= uuids.known
      ensures r.Err? <==> AttendeesOnDisk(persistence.fs.files, persistence.fs.unavailable).Err?
      ensures r.Err? ==> r.error == AttendeesOnDisk(persistence.fs.files, persistence.fs.unavailable).error
      ensures r.Ok? ==> fresh(r.value) && fresh(r.value.table) && r.value.Valid()
      ensures r.Ok? ==> r.value.persistence == persistence && r.value.uuids == uuids
      ensures r.Ok? ==> AttendeesOnDisk(persistence.fs.files, persistence.fs.unavailable) == Ok(r.value.attendees)
    {
      var loaded := persistence.LoadAttendees();
      if loaded.Err? {
        return Err(loaded.error);
      }
      var ids := IdsOf(loaded.value);
      uuids.Observe(ids);
      forall i | 0 <= i < |loaded.value|
        ensures loaded.value[i].uniqueId in uuids.known
      {
        assert ids[i] in set j | 0 <= j < |ids| :: ids[j];
      }
      var panel := new AttendeePanel.Init(persistence, uuids, loaded.value);
      r := Ok(panel);
    }

    /**
     * The Edit button: the dialog's target and the attendee on the selected
     * row, whose fields pre-fill the dialog, or `None` (a "No Selection"
     * warning) when no row is selected.
     */
    method SelectForEdit(selectedRow: int) returns (r: Option<(Target, D.AttendeeRecord)>)
      requires Valid() && selectedRow < |attendees|
      ensures r.None? <==> selectedRow < 0
      ensures r.Some? ==> r.value.0 == Target(selectedRow, refs[selectedRow]) && r.value.1 == attendees[selectedRow]
      ensures r.Some? ==> table.rows[selectedRow] == RowOf(r.value.1)
    {
      if selectedRow < 0 {
        return None;
      }
      r := Some((Target(selectedRow, refs[selectedRow]), attendees[selectedRow]));
    }

    /**
     * The dialog's Save button; `editing` is the target of an Edit dialog and
     * `None` for Add. The dialog always builds a new attendee, so an edited
     * attendee is given a new unique id. The edited position is `indexOf` of
     * the target object: once a save of the same dialog has replaced it (the
     * save failed, so the dialog stayed open), it is not found and `set(-1, …)`
     * throws.
     */
    method Submit(editing: Option<Target>, firstNameText: string, lastNameText: string, paymentType: Option<D.PaymentType>)
      returns (r: Response)
      requires Valid()
      requires editing.Some? ==> editing.value.row < |attendees|
      requires editing.Some? && editing.value.ref in refs ==> refs[editing.value.row] == editing.value.ref
      modifies this, table, uuids, persistence.fs
      ensures uuids.Valid() && old(uuids.known) <= uuids.known
      ensures Valid()
      ensures persistence.fs.unavailable == old(persistence.fs.unavailable)
      ensures uuids.drawn == old(uuids.drawn) + (if IsBlank(firstNameText) || IsBlank(lastNameText) then 0 else 1)
      ensures
        var form := Built(firstNameText, lastNameText, paymentType, old(uuids.Upcoming()));
        && (form.Err? ==> r == Rejected(form.error))
        && (form.Err? || Stale(editing, old(refs)) ==>
              attendees == old(attendees) && refs == old(refs) && persistence.fs.files == old(persistence.fs.files))
        && (form.Ok? ==> form.value.uniqueId !in old(uuids.known))
        && (form.Ok? && Stale(editing, old(refs)) ==> r == Rejected(D.IndexOutOfBounds(-1)))
        && (form.Ok? && !Stale(editing, old(refs)) ==>
              && attendees == Placed(old(attendees), EditRow(editing), form.value)
              && persistence.fs.files == AfterSave(old(persistence.fs.files), persistence.fs.unavailable, Attendees, AttendeeArray(attendees))
              && r == AfterSaving(SaveOutcome(persistence.fs.unavailable, Attendees)))
        && (form.Ok? && editing.Some? && !Stale(editing, old(refs)) ==>
              && attendees[editing.value.row].uniqueId != old(attendees)[editing.value.row].uniqueId
              && Stale(editing, refs))
      ensures r.Saved? ==> AttendeesOnDisk(persistence.fs.files, persistence.fs.unavailable) == Ok(attendees)
    {
      var form := Draw(firstNameText, lastNameText, paymentType);
      if form.Err? {
        return Rejected(form.error);
      }
      if editing.Some? {
        assert attendees[editing.value.row].uniqueId in old(uuids.known);
      }
      r := Commit(editing, form.value);
    }

    /**
     * The dialog's fields checked, then a new attendee built from them, which
     * draws an identifier unless a name was missing.
     */
    method Draw(firstNameText: string, lastNameText: string, paymentType: Option<D.PaymentType>)
      returns (form: Result<D.AttendeeRecord, D.Failure>)
      requires IdsKnown()
      modifies uuids
      ensures uuids.Valid() && old(uuids.known) <= uuids.known
      ensures IdsKnown()
      ensures uuids.drawn == old(uuids.drawn) + (if IsBlank(firstNameText) || IsBlank(lastNameText) then 0 else 1)
      ensures form == Built(firstNameText, lastNameText, paymentType, old(uuids.Upcoming()))
      ensures form.Ok? ==> form.value.uniqueId in uuids.known && form.value.uniqueId !in old(uuids.known)
    {
      ghost var known := uuids.known;
      var fields := RequireAll([firstNameText, lastNameText], NAMES_REQUIRED);
      if fields.Err? {
        return Err(fields.error);
      }
      var created := A.Attendee.New(fields.value[0], fields.value[1], paymentType, uuids);
      assert known <= uuids.known;
      assert IdsKnown();
      if created.Err? {
        return Err(created.error);
      }
      form := Ok(created.value.Value());
    }

    /**
     * Adds `a` at the end, or puts it in place of the object the dialog was
     * opened on, in the list and in the table alike, then saves the whole
     * list. The edited position is `indexOf` that object; when it is no longer
     * in the list, `set(-1, …)` throws before anything changes. After an edit
     * the object is gone, so saving the same dialog again is refused.
     */
    method Commit(editing: Option<Target>, a: D.AttendeeRecord) returns (r: Response)
      requires Valid() && a.uniqueId in uuids.known
      requires editing.Some? ==> editing.value.row < |attendees|
      requires editing.Some? && editing.value.ref in refs ==> refs[editing.value.row] == editing.value.ref
      modifies this, table, persistence.fs
      ensures Valid()
      ensures persistence.fs.unavailable == old(persistence.fs.unavailable)
      ensures Stale(editing, old(refs)) ==>
        && r == Rejected(D.IndexOutOfBounds(-1))
        && attendees == old(attendees) && refs == old(refs) && persistence.fs.files == old(persistence.fs.files)
      ensures !Stale(editing, old(refs)) ==>
        && attendees == Placed(old(attendees), EditRow(editing), a)
        && refs == Placed(old(refs), EditRow(editing), old(nextRef))
        && persistence.fs.files == AfterSave(old(persistence.fs.files), persistence.fs.unavailable, Attendees, AttendeeArray(attendees))
        && r == AfterSaving(SaveOutcome(persistence.fs.unavailable, Attendees))
      ensures editing.Some? ==> Stale(editing, refs)
      ensures r.Saved? ==> AttendeesOnDisk(persistence.fs.files, persistence.fs.unavailable) == Ok(attendees)
    {
      var at: Option<nat> := None;
      if editing.Some? {
        var index := IndexOf(refs, editing.value.ref);
        if index == -1 {
          return Rejected(D.IndexOutOfBounds(index));
        }
        IndexOfDistinct(refs, nextRef, editing.value.row, editing.value.ref);
        at := Some(index);
      }
      Apply(at, a);
      var saved := persistence.SaveAttendees(attendees);
      r := AfterSaving(saved);
    }

    /** `a` added or put in place of the attendee at `at`, in the list and in the table alike. */
    method Apply(at: Option<nat>, a: D.AttendeeRecord)
      requires Valid() && (at.Some? ==> at.value < |attendees|) && a.uniqueId in uuids.known
      modifies this, table
      ensures Valid()
      ensures attendees == Placed(old(attendees), at, a)
      ensures refs == Placed(old(refs), at, old(nextRef))
      ensures at.Some? ==> old(refs)[at.value] !in refs
    {
      PlacedMirrors(attendees, table.rows, RowOf, at, a);
      Render(at, a);
      Place(at, a);
    }

    /** The list half of a save: `a`, a new object, added at the end or in place of the object at `at`. */
    method Place(at: Option<nat>, a: D.AttendeeRecord)
      requires Distinct() && IdsKnown() && (at.Some? ==> at.value < |attendees|) && a.uniqueId in uuids.known
      modifies this
      ensures Distinct() && IdsKnown()
      ensures attendees == Placed(old(attendees), at, a)
      ensures refs == Placed(old(refs), at, old(nextRef))
      ensures at.Some? ==> old(refs)[at.value] !in refs
    {
      PlacedIdentities(refs, nextRef, at);
      ghost var known := uuids.known;
      PlacedKeeps(attendees, at, a, (x: D.AttendeeRecord) => x.uniqueId in known);
      attendees := Placed(attendees, at, a);
      refs := Placed(refs, at, nextRef);
      nextRef := nextRef + 1;
    }

    /** The table half of a save: a new last row, or the four cells of row `at` overwritten. */
    method Render(at: Option<nat>, a: D.AttendeeRecord)
      requires at.Some? ==> at.value < |table.rows| && |table.rows[at.value]| == 4
      modifies table
      ensures table.rows == Placed(old(table.rows), at, RowOf(a))
    {
      match at {
        case None =>
          table.AddRow([Text(a.firstName), Text(a.lastName), PaymentCell(a.paymentType), Text(a.uniqueId)]);
        case Some(row) =>
          table.SetValueAt(Text(a.firstName), row, 0);
          table.SetValueAt(Text(a.lastName), row, 1);
          table.SetValueAt(PaymentCell(a.paymentType), row, 2);
          table.SetValueAt(Text(a.uniqueId), row, 3);
          assert table.rows[row] == RowOf(a);
      }
    }

    /** The Delete button, after the confirmation dialog was answered `confirmed`. */
    method Delete(selectedRow: int, confirmed: bool) returns (r: Response)
      requires Valid() && selectedRow < |attendees|
      modifies this, table, persistence.fs
      ensures Valid()
      ensures persistence.fs.unavailable == old(persistence.fs.unavailable)
      ensures selectedRow < 0 ==> r == NoSelection
      ensures selectedRow >= 0 && !confirmed ==> r == Declined
      ensures r == NoSelection || r == Declined ==>
        attendees == old(attendees) && refs == old(refs) && persistence.fs.files == old(persistence.fs.files)
      ensures selectedRow >= 0 && confirmed ==>
        && attendees == RemoveAt(old(attendees), selectedRow)
        && refs == RemoveAt(old(refs), selectedRow)
        && persistence.fs.files == AfterSave(old(persistence.fs.files), persistence.fs.unavailable, Attendees, AttendeeArray(attendees))
        && r == AfterSaving(SaveOutcome(persistence.fs.unavailable, Attendees))
      ensures r.Saved? ==> AttendeesOnDisk(persistence.fs.files, persistence.fs.unavailable) == Ok(attendees)
    {
      if selectedRow < 0 {
        return NoSelection;
      }
      if !confirmed {
        return Declined;
      }
      Remove(selectedRow);
      var saved := persistence.SaveAttendees(attendees);
      r := AfterSaving(saved);
    }

    /** The attendee at `row` taken out of the list and its row out of the table. */
    method Remove(row: nat)
      requires Valid() && row < |attendees|
      modifies this, table
      ensures Valid()
      ensures attendees == RemoveAt(old(attendees), row)
      ensures refs == RemoveAt(old(refs), row)
    {
      MirrorsRemoveAt(attendees, table.rows, RowOf, row);
      RemoveAtIdentities(refs, nextRef, row);
      ghost var known := uuids.known;
      RemoveAtKeeps(attendees, row, (x: D.AttendeeRecord) => x.uniqueId in known);
      attendees := RemoveAt(attendees, row);
      refs := RemoveAt(refs, row);
      table.RemoveRow(row);
    }
  }
}
